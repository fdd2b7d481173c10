/** The driver loop of `main`: result pages from `PAGE_START` to `PAGE_END`,
    the detail links of each page in order, and the `downloaded` counter
    capped by `MAX_ITEMS`.  Each call of `download_via_detail` is abstracted
    to its boolean outcome: `outcomes[k][j]` is what the call for the j-th
    link of page `PAGE_START + k` returns if it is made. */
module Run {

  /** The settings read once at start: `PAGE_START`, `PAGE_END` and
      `MAX_ITEMS` (6, 10 and 30000 in the script). */
  datatype Config = Config(pageStart: int, pageEnd: int, maxItems: int)

  /** `len(range(PAGE_START, PAGE_END + 1))` */
  function PageCount(cfg: Config): nat {
    if cfg.pageEnd >= cfg.pageStart then cfg.pageEnd - cfg.pageStart + 1 else 0
  }

  /** Outcomes of all links, page after page, in the order they are tried. */
  function Flatten(xs: seq<seq<bool>>): (r: seq<bool>)
    decreases |xs|
  {
    if |xs| == 0 then [] else Flatten(xs[..|xs| - 1]) + xs[|xs| - 1]
  }

  function CountTrue(bs: seq<bool>): nat
    decreases |bs|
  {
    if |bs| == 0 then 0 else CountTrue(bs[..|bs| - 1]) + (if bs[|bs| - 1] then 1 else 0)
  }

  /** The most items a run can count: `MAX_ITEMS`, or none when it is not
      positive. */
  function Cap(cfg: Config): nat {
    if cfg.maxItems < 0 then 0 else cfg.maxItems
  }

  function Min(a: int, b: int): int { if a <= b then a else b }

  lemma {:induction false} FlattenPrefix(xs: seq<seq<bool>>, k: nat)
    requires k < |xs|
    ensures Flatten(xs[..k + 1]) == Flatten(xs[..k]) + xs[k]
    ensures Flatten(xs[..k]) + xs[k] <= Flatten(xs)
    decreases |xs| - k
  {
    assert xs[..k + 1][..k] == xs[..k];
    if k + 1 < |xs| {
      FlattenPrefix(xs, k + 1);
    } else {
      assert xs[..k + 1] == xs;
    }
  }

  lemma CountTrueStep(bs: seq<bool>, a: nat)
    requires a < |bs|
    ensures CountTrue(bs[..a + 1]) == CountTrue(bs[..a]) + (if bs[a] then 1 else 0)
  {
    assert bs[..a + 1][..a] == bs[..a];
  }

  /** Counting over a longer prefix never gives less. */
  lemma {:induction false} CountTrueMonotone(bs: seq<bool>, a: nat, b: nat)
    requires a <= b <= |bs|
    ensures CountTrue(bs[..a]) <= CountTrue(bs[..b])
    decreases b - a
  {
    if a < b {
      CountTrueStep(bs, b - 1);
      CountTrueMonotone(bs, a, b - 1);
    }
  }

  /** When the links tried are exactly those the loop reaches (it stops at
      the first point at which the counter has reached the cap), the count
      is the number of successful links, capped. */
  lemma {:induction false} StoppedCountIsCapped(bs: seq<bool>, maxItems: int, a: nat)
    requires a <= |bs|
    requires forall k :: 0 <= k < a ==> CountTrue(bs[..k]) < maxItems
    requires a < |bs| ==> CountTrue(bs[..a]) >= maxItems
    ensures CountTrue(bs[..a]) == Min(if maxItems < 0 then 0 else maxItems, CountTrue(bs))
  {
    assert bs[..|bs|] == bs;
    if a > 0 {
      CountTrueStep(bs, a - 1);
      assert CountTrue(bs[..a - 1]) < maxItems;
    }
    CountTrueMonotone(bs, a, |bs|);
  }

  /** After `attempts` calls over the outcomes `flat`, `downloaded` is the
      number that succeeded, and the counter was below `maxItems` before
      each call. */
  ghost predicate Tried(flat: seq<bool>, maxItems: int, downloaded: nat, attempts: nat) {
    && attempts <= |flat|
    && downloaded == CountTrue(flat[..attempts])
    && forall a :: 0 <= a < attempts ==> CountTrue(flat[..a]) < maxItems
  }

  /** The inner loop of `main` over the links of one page, whose outcomes
      `details` sit in `flat` from position `attempts0` on. */
  method RunLinks(maxItems: int, details: seq<bool>, ghost flat: seq<bool>,
                  downloaded0: nat, ghost attempts0: nat)
    returns (downloaded: nat, ghost attempts: nat)
    requires attempts0 + |details| <= |flat| && flat[attempts0..attempts0 + |details|] == details
    requires Tried(flat, maxItems, downloaded0, attempts0)
    ensures Tried(flat, maxItems, downloaded, attempts)
    ensures attempts0 <= attempts <= attempts0 + |details|
    ensures attempts < attempts0 + |details| ==> downloaded >= maxItems
  {
    downloaded, attempts := downloaded0, attempts0;
    var j := 0;
    while j < |details|
      invariant 0 <= j <= |details|
      invariant attempts0 <= attempts <= attempts0 + j
      invariant attempts < attempts0 + j ==> downloaded >= maxItems
      invariant Tried(flat, maxItems, downloaded, attempts)
    {
      if downloaded >= maxItems {
        break;
      }
      assert attempts == attempts0 + j;
      assert flat[attempts] == details[j];
      CountTrueStep(flat, attempts);
      if details[j] {
        downloaded := downloaded + 1;
      }
      attempts := attempts + 1;
      j := j + 1;
    }
  }

  /** `main`'s two loops; `attempts` counts the calls of
      `download_via_detail`. */
  method RunPages(cfg: Config, outcomes: seq<seq<bool>>) returns (downloaded: nat, ghost attempts: nat)
    requires |outcomes| == PageCount(cfg)
    ensures attempts <= |Flatten(outcomes)|
    ensures downloaded == CountTrue(Flatten(outcomes)[..attempts])
    ensures forall k :: 0 <= k < attempts ==> CountTrue(Flatten(outcomes)[..k]) < cfg.maxItems
    ensures attempts < |Flatten(outcomes)| ==> downloaded >= cfg.maxItems
    ensures downloaded <= Cap(cfg)
    ensures downloaded == Min(Cap(cfg), CountTrue(Flatten(outcomes)))
  {
    ghost var flat := Flatten(outcomes);
    assert outcomes[..|outcomes|] == outcomes;
    downloaded, attempts := 0, 0;
    var k := 0;
    while k < |outcomes|
      invariant 0 <= k <= |outcomes|
      invariant attempts <= |Flatten(outcomes[..k])| <= |flat|
      invariant Flatten(outcomes[..k]) <= flat
      invariant attempts < |Flatten(outcomes[..k])| ==> downloaded >= cfg.maxItems
      invariant Tried(flat, cfg.maxItems, downloaded, attempts)
    {
      if downloaded >= cfg.maxItems {
        break;
      }
      FlattenPrefix(outcomes, k);
      var details := outcomes[k];
      ghost var base := |Flatten(outcomes[..k])|;
      assert flat[base..base + |details|] == details;
      downloaded, attempts := RunLinks(cfg.maxItems, details, flat, downloaded, attempts);
      k := k + 1;
    }
    StoppedCountIsCapped(flat, cfg.maxItems, attempts);
  }
}
