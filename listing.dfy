/** Listing logic around the scraper: order-preserving de-duplication
    (`list(dict.fromkeys(xs))`), the title and category text taken from a
    detail page, the detail links taken from a result page, the keyword
    filter that decides whether an item is downloaded, and the URL of a
    result page.  The regular-expression matches themselves are inputs. */
module Listing {
  import opened Text
  import opened Wrappers

  // ---------------------------------------------------------------------
  // Order-preserving de-duplication

  /** `list(dict.fromkeys(s))`: keys are inserted left to right, and a key
      already present keeps its place. */
  function Dedup<T(==)>(s: seq<T>): seq<T>
    decreases |s|
  {
    if |s| == 0 then []
    else
      var d := Dedup(s[..|s| - 1]);
      if s[|s| - 1] in d then d else d + [s[|s| - 1]]
  }

  predicate Distinct<T(==)>(s: seq<T>) {
    forall i, j :: 0 <= i < j < |s| ==> s[i] != s[j]
  }

  /** Position of the first occurrence of `x` in `s`. */
  function FirstIndex<T(==)>(s: seq<T>, x: T): (k: nat)
    requires x in s
    ensures k < |s| && s[k] == x
    ensures forall j :: 0 <= j < k ==> s[j] != x
  {
    if s[0] == x then 0 else 1 + FirstIndex(s[1..], x)
  }

  /** The elements of `r` are those of `s`, each once, in the order of their
      first occurrences in `s`. */
  predicate IsFirstOccurrenceList<T(==)>(s: seq<T>, r: seq<T>) {
    && (forall i :: 0 <= i < |r| ==> r[i] in s)
    && (forall i :: 0 <= i < |s| ==> s[i] in r)
    && Distinct(r)
    && (forall i, j :: 0 <= i < j < |r| ==> FirstIndex(s, r[i]) < FirstIndex(s, r[j]))
  }

  /** In `p + q`, an element of `p` first occurs where it first occurs in `p`. */
  lemma FirstIndexInPrefix<T>(p: seq<T>, q: seq<T>, x: T)
    requires x in p
    ensures FirstIndex(p + q, x) == FirstIndex(p, x)
  {
    var k, k' := FirstIndex(p + q, x), FirstIndex(p, x);
    assert (p + q)[k'] == x;
    assert p[k] == (p + q)[k];
  }

  /** `Dedup` keeps exactly the elements of its input, once each, in the order
      of their first occurrences. */
  lemma {:induction false} DedupSpec<T>(s: seq<T>)
    ensures IsFirstOccurrenceList(s, Dedup(s))
    decreases |s|
  {
    if |s| > 0 {
      var init, last := s[..|s| - 1], s[|s| - 1];
      assert s == init + [last];
      DedupSpec(init);
      var d := Dedup(init);
      forall x | x in d ensures FirstIndex(s, x) == FirstIndex(init, x) {
        FirstIndexInPrefix(init, [last], x);
      }
      if last !in d {
        assert FirstIndex(s, last) == |s| - 1;
        var r := d + [last];
        forall i, j | 0 <= i < j < |r| ensures FirstIndex(s, r[i]) < FirstIndex(s, r[j]) {
          if j < |d| {
            assert r[i] == d[i] && r[j] == d[j];
          } else {
            assert r[i] == d[i];
          }
        }
      }
    }
  }

  /** Dropping a last element that already occurred earlier changes neither
      the elements nor their first positions. */
  lemma FirstOccurrenceRepeatedLast<T>(s: seq<T>, r: seq<T>)
    requires |s| > 0 && s[|s| - 1] in s[..|s| - 1]
    requires IsFirstOccurrenceList(s, r)
    ensures IsFirstOccurrenceList(s[..|s| - 1], r)
  {
    var init, last := s[..|s| - 1], s[|s| - 1];
    assert s == init + [last];
    forall i | 0 <= i < |r| ensures r[i] in init && FirstIndex(init, r[i]) == FirstIndex(s, r[i]) {
      assert r[i] in s;
      FirstIndexInPrefix(init, [last], r[i]);
    }
    forall i | 0 <= i < |init| ensures init[i] in r {
      assert init[i] == s[i];
    }
  }

  /** A last element seen for the first time has the largest first index, so
      it must close the list. */
  lemma FreshLastCloses<T>(s: seq<T>, r: seq<T>)
    requires |s| > 0 && s[|s| - 1] !in s[..|s| - 1]
    requires IsFirstOccurrenceList(s, r)
    ensures |r| > 0 && r[|r| - 1] == s[|s| - 1]
  {
    var init, last := s[..|s| - 1], s[|s| - 1];
    assert s == init + [last];
    assert FirstIndex(s, last) == |s| - 1;
    assert last in r;
    var n := |r| - 1;
    var i :| 0 <= i < |r| && r[i] == last;
    assert FirstIndex(s, r[n]) < |s|;
    assert i == n;
  }

  /** ... and the rest of the list is the first-occurrence list of the
      shorter input. */
  lemma FirstOccurrenceFreshLast<T>(s: seq<T>, r: seq<T>)
    requires |s| > 0 && s[|s| - 1] !in s[..|s| - 1]
    requires IsFirstOccurrenceList(s, r)
    ensures |r| > 0 && r == r[..|r| - 1] + [s[|s| - 1]]
    ensures IsFirstOccurrenceList(s[..|s| - 1], r[..|r| - 1])
  {
    var init, last := s[..|s| - 1], s[|s| - 1];
    FreshLastCloses(s, r);
    var n := |r| - 1;
    var r' := r[..n];
    assert r == r' + [last];
    assert s == init + [last];
    forall a | 0 <= a < |r'| ensures r'[a] in init && FirstIndex(init, r'[a]) == FirstIndex(s, r'[a]) {
      assert r'[a] == r[a] && r[a] != r[n] && r[a] in s;
      FirstIndexInPrefix(init, [last], r'[a]);
    }
    forall a | 0 <= a < |init| ensures init[a] in r' {
      assert init[a] == s[a] && init[a] != last;
      var m :| 0 <= m < |r| && r[m] == init[a];
      assert r'[m] == r[m];
    }
    forall a, b | 0 <= a < b < |r'| ensures FirstIndex(init, r'[a]) < FirstIndex(init, r'[b]) {
      assert r'[a] == r[a] && r'[b] == r[b];
    }
  }

  /** Only the empty list draws its elements from the empty input. */
  lemma FirstElementIn<T>(s: seq<T>, r: seq<T>)
    requires forall i :: 0 <= i < |r| ==> r[i] in s
    ensures |r| == 0 || r[0] in s
  {
  }

  /** There is only one such list: whatever satisfies the three properties is
      what `Dedup` computes. */
  lemma {:induction false} DedupUnique<T>(s: seq<T>, r: seq<T>)
    requires IsFirstOccurrenceList(s, r)
    ensures r == Dedup(s)
    decreases |s|
  {
    if |s| == 0 {
      FirstElementIn(s, r);
    } else {
      var init, last := s[..|s| - 1], s[|s| - 1];
      DedupSpec(init);
      if last in init {
        FirstOccurrenceRepeatedLast(s, r);
        DedupUnique(init, r);
        assert last in Dedup(init) by {
          var i :| 0 <= i < |init| && init[i] == last;
        }
      } else {
        FirstOccurrenceFreshLast(s, r);
        DedupUnique(init, r[..|r| - 1]);
        assert last !in Dedup(init);
      }
    }
  }

  /** A list without repetitions is its own de-duplication. */
  lemma DedupOfDistinct<T>(s: seq<T>)
    requires Distinct(s)
    ensures Dedup(s) == s
  {
    forall i | 0 <= i < |s| ensures FirstIndex(s, s[i]) == i {
      var k := FirstIndex(s, s[i]);
      assert !(k < i) && !(i < k);
    }
    DedupUnique(s, s);
  }

  /** De-duplicating is idempotent. */
  lemma DedupIdempotent<T>(s: seq<T>)
    ensures Dedup(Dedup(s)) == Dedup(s)
  {
    DedupSpec(s);
    DedupOfDistinct(Dedup(s));
  }

  /** What comes first keeps its place: de-duplicating `a + b` starts with
      the de-duplication of `a`. */
  lemma {:induction false} DedupPrefix<T>(a: seq<T>, b: seq<T>)
    ensures Dedup(a) <= Dedup(a + b)
    decreases |b|
  {
    if |b| == 0 {
      assert a + b == a;
    } else {
      var b' := b[..|b| - 1];
      assert (a + b)[..|a + b| - 1] == a + b';
      DedupPrefix(a, b');
    }
  }

  // ---------------------------------------------------------------------
  // Title and category text of a detail page

  /** Fallback title when the page has no `og:title` meta tag. */
  const DEFAULT_TITLE: string := "pixabay_audio"

  /** `m.group(1).strip() if m else "pixabay_audio"`: `ogTitle` is the
      captured `content` of the meta tag, if any. */
  function ExtractTitle(ogTitle: Option<string>): string {
    if ogTitle.Some? then Strip(ogTitle.value) else DEFAULT_TITLE
  }

  /** `c.replace("-", " ").strip()` for one category slug. */
  function CleanSlug(c: string): string {
    Strip(ReplaceChar(c, '-', ' '))
  }

  /** The category labels: the cleaned slugs, de-duplicated. */
  function CategoryLabels(slugs: seq<string>): seq<string> {
    Dedup(seq(|slugs|, i requires 0 <= i < |slugs| => CleanSlug(slugs[i])))
  }

  /** `sep.join(xs)` */
  function Join(sep: string, xs: seq<string>): string
    decreases |xs|
  {
    if |xs| == 0 then "" else if |xs| == 1 then xs[0] else xs[0] + sep + Join(sep, xs[1..])
  }

  /** `", ".join(cats)` */
  function CategoryText(slugs: seq<string>): string {
    Join(", ", CategoryLabels(slugs))
  }

  /** `extract_title_and_category(html)`, given what its two regular
      expressions matched. */
  function TitleAndCategory(ogTitle: Option<string>, slugs: seq<string>): (string, string) {
    (ExtractTitle(ogTitle), CategoryText(slugs))
  }

  /** The labels are the cleaned slugs, each once, in first-seen order. */
  lemma CategoryLabelsSpec(slugs: seq<string>)
    ensures var cleaned := seq(|slugs|, i requires 0 <= i < |slugs| => CleanSlug(slugs[i]));
      IsFirstOccurrenceList(cleaned, CategoryLabels(slugs))
  {
    DedupSpec(seq(|slugs|, i requires 0 <= i < |slugs| => CleanSlug(slugs[i])));
  }

  /** Joining keeps every lower-cased occurrence inside each piece. */
  lemma {:induction false} JoinKeepsLowerOccurrence(sep: string, xs: seq<string>, i: nat, t: string)
    requires i < |xs| && Contains(Lower(xs[i]), t)
    ensures Contains(Lower(Join(sep, xs)), t)
    decreases |xs|
  {
    if |xs| == 1 {
    } else {
      var rest := Join(sep, xs[1..]);
      assert Join(sep, xs) == xs[0] + sep + rest;
      LowerConcat(xs[0] + sep, rest);
      LowerConcat(xs[0], sep);
      if i == 0 {
        ContainsWithin([], Lower(xs[0]), Lower(sep) + Lower(rest), t);
        assert [] + Lower(xs[0]) + (Lower(sep) + Lower(rest)) == Lower(Join(sep, xs));
      } else {
        JoinKeepsLowerOccurrence(sep, xs[1..], i - 1, t);
        ContainsWithin(Lower(xs[0]) + Lower(sep), Lower(rest), [], t);
        assert Lower(xs[0]) + Lower(sep) + Lower(rest) + [] == Lower(Join(sep, xs));
      }
    }
  }

  /** Conversely, an occurrence in the lower-cased joined text that holds no
      character of the separator lies inside one lower-cased piece. */
  lemma {:induction false} JoinLowerOccurrenceIn(sep: string, xs: seq<string>, t: string)
    requires |sep| > 0 && Contains(Lower(Join(sep, xs)), t)
    ensures || t == []
            || (exists j :: 0 <= j < |t| && t[j] in Lower(sep))
            || (exists i :: 0 <= i < |xs| && Contains(Lower(xs[i]), t))
    decreases |xs|
  {
    if |xs| == 0 {
      assert Lower(Join(sep, xs)) == [];
    } else if |xs| == 1 {
      assert Contains(Lower(xs[0]), t);
    } else {
      var rest := Join(sep, xs[1..]);
      assert Join(sep, xs) == xs[0] + sep + rest;
      LowerConcat(xs[0] + sep, rest);
      LowerConcat(xs[0], sep);
      ContainsSplit(Lower(xs[0]), Lower(sep), Lower(rest), t);
      if Contains(Lower(rest), t) {
        JoinLowerOccurrenceIn(sep, xs[1..], t);
        if exists i :: 0 <= i < |xs[1..]| && Contains(Lower(xs[1..][i]), t) {
          var i :| 0 <= i < |xs[1..]| && Contains(Lower(xs[1..][i]), t);
          assert Contains(Lower(xs[i + 1]), t);
        }
      }
    }
  }

  // ---------------------------------------------------------------------
  // The keyword filter of `download_via_detail`

  /** `keywords = ["fire", "siren"]` */
  const KEYWORDS: seq<string> := ["fire", "siren"]

  /** `any(k in title.lower() or k in category.lower() for k in keywords)` */
  predicate KeepItem(title: string, category: string) {
    exists k :: k in KEYWORDS && (Contains(Lower(title), k) || Contains(Lower(category), k))
  }

  /** An item is kept when any one of its category slugs mentions a keyword,
      in any case, even though the slugs are cleaned, de-duplicated and
      joined first. */
  lemma KeptWhenSomeSlugMatches(title: string, slugs: seq<string>, i: nat, k: string)
    requires i < |slugs| && k in KEYWORDS && Contains(Lower(CleanSlug(slugs[i])), k)
    ensures KeepItem(title, CategoryText(slugs))
  {
    var cleaned := seq(|slugs|, j requires 0 <= j < |slugs| => CleanSlug(slugs[j]));
    var labels := CategoryLabels(slugs);
    CategoryLabelsSpec(slugs);
    assert cleaned[i] in labels;
    var m :| 0 <= m < |labels| && labels[m] == cleaned[i];
    JoinKeepsLowerOccurrence(", ", labels, m, k);
  }

  /** A keyword in the title keeps the item whatever text surrounds it. */
  lemma KeptWhenTitleMentions(before: string, k: string, after: string, category: string)
    requires k in KEYWORDS
    ensures KeepItem(before + k + after, category)
  {
    LowerConcat(before + k, after);
    LowerConcat(before, k);
    assert Lower(k) == k;
    ContainsSelf(k);
    ContainsWithin(Lower(before), k, Lower(after), k);
  }

  /** The keywords hold neither a comma nor a space, so none can straddle the
      `", "` between two category labels. */
  lemma KeywordsAvoidSeparator(k: string)
    requires k in KEYWORDS
    ensures k != [] && forall j :: 0 <= j < |k| ==> k[j] !in ", "
  {
  }

  /** Keyword `k` appears in the lower-cased title or in one of the cleaned,
      lower-cased category slugs. */
  predicate Mentions(title: string, slugs: seq<string>, k: string) {
    && k in KEYWORDS
    && (|| Contains(Lower(title), k)
        || exists i :: 0 <= i < |slugs| && Contains(Lower(CleanSlug(slugs[i])), k))
  }

  /** An item is kept only when its title, or one of its category slugs once
      cleaned, mentions a keyword in any case. */
  lemma KeptOnlyWhenMentioned(title: string, slugs: seq<string>)
    requires KeepItem(title, CategoryText(slugs))
    ensures exists k :: Mentions(title, slugs, k)
  {
    var k :| k in KEYWORDS && (Contains(Lower(title), k) || Contains(Lower(CategoryText(slugs)), k));
    if !Contains(Lower(title), k) {
      var labels := CategoryLabels(slugs);
      KeywordsAvoidSeparator(k);
      assert Lower(", ") == ", ";
      JoinLowerOccurrenceIn(", ", labels, k);
      var m :| 0 <= m < |labels| && Contains(Lower(labels[m]), k);
      var i := LabelSource(slugs, m);
    }
    assert Mentions(title, slugs, k);
  }

  /** Every category label comes from one of the slugs. */
  lemma LabelSource(slugs: seq<string>, m: nat) returns (i: nat)
    requires m < |CategoryLabels(slugs)|
    ensures i < |slugs| && CleanSlug(slugs[i]) == CategoryLabels(slugs)[m]
  {
    var cleaned := seq(|slugs|, j requires 0 <= j < |slugs| => CleanSlug(slugs[j]));
    CategoryLabelsSpec(slugs);
    assert CategoryLabels(slugs)[m] in cleaned;
    var j :| 0 <= j < |cleaned| && cleaned[j] == CategoryLabels(slugs)[m];
    i := j;
  }

  /** The filter, both ways: an item is kept exactly when its title or one of
      its cleaned category slugs mentions a keyword. */
  lemma KeepItemIff(title: string, slugs: seq<string>)
    ensures KeepItem(title, CategoryText(slugs)) <==> exists k :: Mentions(title, slugs, k)
  {
    if KeepItem(title, CategoryText(slugs)) {
      KeptOnlyWhenMentioned(title, slugs);
    } else {
      forall k | Mentions(title, slugs, k) ensures false {
        if !Contains(Lower(title), k) {
          var i :| 0 <= i < |slugs| && Contains(Lower(CleanSlug(slugs[i])), k);
          KeptWhenSomeSlugMatches(title, slugs, i, k);
        }
      }
    }
  }

  /** Every occurrence of a non-empty `t` starts with its first character. */
  lemma {:induction false} ContainsHasFirstChar(s: string, t: string)
    requires |t| > 0 && Contains(s, t)
    ensures t[0] in s
    decreases |s|
  {
    if !StartsWith(s, t) {
      ContainsHasFirstChar(s[1..], t);
    }
  }

  /** Although the comment above the filter mentions "bell", it is not one of
      the keywords: a door-bell item with no matching category is skipped. */
  lemma BellIsNotAKeyword()
    ensures !KeepItem("Door Bell", "")
  {
    assert Lower("Door Bell") == "door bell";
    assert Lower("") == "";
    forall k | k in KEYWORDS ensures !Contains("door bell", k) && !Contains("", k) {
      if Contains("door bell", k) {
        ContainsHasFirstChar("door bell", k);
      }
      if Contains("", k) {
        ContainsHasFirstChar("", k);
      }
    }
  }

  // ---------------------------------------------------------------------
  // Detail links and result-page URLs

  const SITE: string := "https://pixabay.com"

  /** `[f"https://pixabay.com{p}" for p in rels]` */
  function Absolutes(rels: seq<string>): (r: seq<string>)
    ensures |r| == |rels|
  {
    seq(|rels|, i requires 0 <= i < |rels| => SITE + rels[i])
  }

  /** `list(dict.fromkeys([f"https://pixabay.com{p}" for p in rels] + abss))` */
  function DetailLinks(rels: seq<string>, abss: seq<string>): seq<string> {
    Dedup(Absolutes(rels) + abss)
  }

  lemma AbsolutesMembers(rels: seq<string>, x: string)
    ensures x in Absolutes(rels) <==> exists i :: 0 <= i < |rels| && x == SITE + rels[i]
  {
    if exists i :: 0 <= i < |rels| && x == SITE + rels[i] {
      var i :| 0 <= i < |rels| && x == SITE + rels[i];
      assert Absolutes(rels)[i] == x;
    }
  }

  /** A first-occurrence list has the same members as its input. */
  lemma FirstOccurrenceMembers<T>(s: seq<T>, r: seq<T>, x: T)
    requires IsFirstOccurrenceList(s, r)
    ensures x in r <==> x in s
  {
    if x in r {
      var i :| 0 <= i < |r| && r[i] == x;
    }
    if x in s {
      var i :| 0 <= i < |s| && s[i] == x;
    }
  }

  /** The links are the absolute forms of the relative links and the absolute
      links, each once; the relative links, de-duplicated, come first. */
  lemma DetailLinksSpec(rels: seq<string>, abss: seq<string>)
    ensures var r := DetailLinks(rels, abss);
      && Distinct(r)
      && (forall x :: x in r <==> (x in abss || exists i :: 0 <= i < |rels| && x == SITE + rels[i]))
      && Dedup(Absolutes(rels)) <= r
  {
    var full := Absolutes(rels);
    DedupSpec(full + abss);
    DedupPrefix(full, abss);
    forall x ensures x in DetailLinks(rels, abss) <==> (x in abss || exists i :: 0 <= i < |rels| && x == SITE + rels[i]) {
      FirstOccurrenceMembers(full + abss, DetailLinks(rels, abss), x);
      AbsolutesMembers(rels, x);
    }
  }

  const BASE_URL: string := "https://pixabay.com/en/"
  const SEARCH_QUERY: string := "fire alarm"

  /** `f"{BASE_URL}sound-effects/search/{SEARCH_QUERY.replace(' ', '-')}/"` */
  function SearchUrl(): string {
    BASE_URL + "sound-effects/search/" + ReplaceChar(SEARCH_QUERY, ' ', '-') + "/"
  }

  /** `SEARCH_URL if page == 1 else f"{SEARCH_URL}?pagi={page}"` */
  function PageUrl(page: int): string {
    if page == 1 then SearchUrl() else SearchUrl() + "?pagi=" + IntToString(page)
  }

  lemma SearchUrlValue()
    ensures SearchUrl() == "https://pixabay.com/en/sound-effects/search/fire-alarm/"
  {
    SearchSlugValue();
    SearchUrlLiteral();
  }

  /** `SEARCH_QUERY.replace(' ', '-')` */
  lemma SearchSlugValue()
    ensures ReplaceChar(SEARCH_QUERY, ' ', '-') == "fire-alarm"
  {
  }

  lemma SearchUrlLiteral()
    ensures BASE_URL + "sound-effects/search/" + "fire-alarm" + "/"
            == "https://pixabay.com/en/sound-effects/search/fire-alarm/"
  {
  }

  /** Different pages are fetched from different URLs, each of which extends
      the search URL. */
  lemma PageUrlInjective(p: int, q: int)
    requires PageUrl(p) == PageUrl(q)
    ensures p == q
  {
    var base := SearchUrl() + "?pagi=";
    if p != 1 && q != 1 {
      assert PageUrl(p) == base + IntToString(p) + "";
      assert PageUrl(q) == base + IntToString(q) + "";
      CancelAround(base, IntToString(p), IntToString(q), "");
      IntToStringInjective(p, q);
    }
  }

  lemma PageUrlExtendsSearchUrl(page: int)
    ensures StartsWith(PageUrl(page), SearchUrl())
    ensures page != 1 ==> |PageUrl(page)| > |SearchUrl()|
  {
    assert PageUrl(page)[..|SearchUrl()|] == SearchUrl();
  }
}
