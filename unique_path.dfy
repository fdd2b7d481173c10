/** The collision resolver `make_unique_path(path)`.  The download directory
    is a set of file names; `path.exists()` is membership in that set and
    `int(time.time())` is the parameter `now`. */
module UniquePath {
  import opened Text

  /** `range(1, 999)`: the numbered candidates `stem(1)ext` .. `stem(998)ext`. */
  const MAX_TRIES: nat := 998

  /** Index of the last occurrence of `c` in `s`, or -1 (`str.rfind`). */
  function LastIndexOf(s: string, c: char): (i: int)
    ensures -1 <= i < |s|
    ensures i >= 0 ==> s[i] == c
    ensures forall j :: i < j < |s| ==> s[j] != c
  {
    if |s| == 0 then -1
    else if s[|s| - 1] == c then |s| - 1
    else LastIndexOf(s[..|s| - 1], c)
  }

  /** `PurePath.suffix`: from the last dot on, provided that dot is neither
      the first nor the last character of the name. */
  function Suffix(name: string): string {
    var i := LastIndexOf(name, '.');
    if 0 < i < |name| - 1 then name[i..] else ""
  }

  /** `PurePath.stem`: the name without its suffix. */
  function Stem(name: string): string {
    var i := LastIndexOf(name, '.');
    if 0 < i < |name| - 1 then name[..i] else name
  }

  /** Stem and suffix split the name: they put it back together, and a
      non-empty suffix is a dot followed by at least one character that is
      not a dot.  The suffix starts at the last dot when that dot is inside
      the name; a name with no inner dot, or ending in a dot, has none. */
  lemma StemSuffixSplit(name: string)
    ensures Stem(name) + Suffix(name) == name
    ensures Suffix(name) == "" || (|Suffix(name)| >= 2 && Suffix(name)[0] == '.')
    ensures forall j :: 0 < j < |Suffix(name)| ==> Suffix(name)[j] != '.'
    ensures Stem(name) != ""
            || (name == "" && Suffix(name) == "")
    ensures forall i :: 0 < i < |name| - 1 && name[i] == '.' && (forall j :: i < j < |name| ==> name[j] != '.')
                        ==> Suffix(name) == name[i..] && Stem(name) == name[..i]
    ensures (forall i :: 0 < i < |name| - 1 ==> name[i] != '.') ==> Suffix(name) == "" && Stem(name) == name
    ensures |name| > 0 && name[|name| - 1] == '.' ==> Suffix(name) == "" && Stem(name) == name
  {
    var i := LastIndexOf(name, '.');
    if 0 < i < |name| - 1 {
      assert name[..i] + name[i..] == name;
      forall j | 0 < j < |Suffix(name)| ensures Suffix(name)[j] != '.' {
        assert Suffix(name)[j] == name[i + j];
      }
    }
  }

  /** `f"{stem}({i}){ext}"` */
  function CandidateName(stem: string, i: nat, ext: string): string {
    stem + "(" + NatToString(i) + ")" + ext
  }

  /** `f"{stem}_{int(time.time())}{ext}"` */
  function TimestampName(stem: string, now: nat, ext: string): string {
    stem + "_" + NatToString(now) + ext
  }

  /** The name the loop settles on when it starts at candidate `i`. */
  function FirstFreeFrom(stem: string, ext: string, existing: set<string>, i: nat, now: nat): string
    requires 1 <= i
    decreases MAX_TRIES + 1 - i
  {
    if i > MAX_TRIES then TimestampName(stem, now, ext)
    else if CandidateName(stem, i, ext) !in existing then CandidateName(stem, i, ext)
    else FirstFreeFrom(stem, ext, existing, i + 1, now)
  }

  /** What `make_unique_path` returns for file `name` in a directory holding
      `existing`. */
  function UniqueName(name: string, existing: set<string>, now: nat): string {
    if name !in existing then name
    else FirstFreeFrom(Stem(name), Suffix(name), existing, 1, now)
  }

  /** `make_unique_path`: a `for` loop over the numbered candidates with an
      early return on the first free one. */
  method MakeUniquePath(name: string, existing: set<string>, now: nat) returns (r: string)
    ensures r == UniqueName(name, existing, now)
  {
    if name !in existing {
      return name;
    }
    var stem, ext := Stem(name), Suffix(name);
    for i := 1 to MAX_TRIES + 1
      invariant FirstFreeFrom(stem, ext, existing, i, now) == UniqueName(name, existing, now)
    {
      var cand := CandidateName(stem, i, ext);
      if cand !in existing {
        return cand;
      }
    }
    return TimestampName(stem, now, ext);
  }

  // ---------------------------------------------------------------------
  // Properties of the resolver

  /** Starting at candidate `i`, the loop returns the first free candidate
      from `i` on, or the timestamp name when every one from `i` to 998 is
      taken. */
  lemma {:induction false} FirstFreeFromSpec(stem: string, ext: string, existing: set<string>, i: nat, now: nat)
    requires 1 <= i
    ensures var r := FirstFreeFrom(stem, ext, existing, i, now);
      || (exists j :: i <= j <= MAX_TRIES && r == CandidateName(stem, j, ext) && r !in existing
                      && forall l :: i <= l < j ==> CandidateName(stem, l, ext) in existing)
      || (r == TimestampName(stem, now, ext)
          && forall l :: i <= l <= MAX_TRIES ==> CandidateName(stem, l, ext) in existing)
    decreases MAX_TRIES + 1 - i
  {
    if i <= MAX_TRIES && CandidateName(stem, i, ext) in existing {
      FirstFreeFromSpec(stem, ext, existing, i + 1, now);
      var r := FirstFreeFrom(stem, ext, existing, i + 1, now);
      if j :| i + 1 <= j <= MAX_TRIES && r == CandidateName(stem, j, ext) && r !in existing
               && forall l :: i + 1 <= l < j ==> CandidateName(stem, l, ext) in existing {
        assert forall l :: i <= l < j ==> CandidateName(stem, l, ext) in existing;
      }
    }
  }

  /** A free name is returned unchanged. */
  lemma UniqueNameWhenFree(name: string, existing: set<string>, now: nat)
    requires name !in existing
    ensures UniqueName(name, existing, now) == name
  {
  }

  /** A taken name yields `stem(i)ext` for the smallest `i` in 1..998 whose
      candidate is free, and that result is not taken. */
  lemma UniqueNameWhenTaken(name: string, existing: set<string>, now: nat, i: nat)
    requires name in existing
    requires 1 <= i <= MAX_TRIES && CandidateName(Stem(name), i, Suffix(name)) !in existing
    requires forall l :: 1 <= l < i ==> CandidateName(Stem(name), l, Suffix(name)) in existing
    ensures UniqueName(name, existing, now) == CandidateName(Stem(name), i, Suffix(name))
    ensures UniqueName(name, existing, now) !in existing
  {
    var stem, ext := Stem(name), Suffix(name);
    FirstFreeFromSpec(stem, ext, existing, 1, now);
    var r := UniqueName(name, existing, now);
    if j :| 1 <= j <= MAX_TRIES && r == CandidateName(stem, j, ext) && r !in existing
             && forall l :: 1 <= l < j ==> CandidateName(stem, l, ext) in existing {
      assert !(j < i) && !(i < j);
    }
  }

  /** Distinct numbers give distinct candidates. */
  lemma CandidateInjective(stem: string, ext: string, i: nat, j: nat)
    requires CandidateName(stem, i, ext) == CandidateName(stem, j, ext)
    ensures i == j
  {
    var p, q := stem + "(", ")" + ext;
    assert CandidateName(stem, i, ext) == p + NatToString(i) + q;
    assert CandidateName(stem, j, ext) == p + NatToString(j) + q;
    CancelAround(p, NatToString(i), NatToString(j), q);
    NatToStringInjective(i, j);
  }

  /** A candidate is never the original name nor the timestamp fallback. */
  lemma CandidateIsNew(name: string, i: nat, now: nat)
    ensures CandidateName(Stem(name), i, Suffix(name)) != name
    ensures CandidateName(Stem(name), i, Suffix(name)) != TimestampName(Stem(name), now, Suffix(name))
  {
    StemSuffixSplit(name);
    var stem := Stem(name);
    assert CandidateName(stem, i, Suffix(name))[|stem|] == '(';
    assert TimestampName(stem, now, Suffix(name))[|stem|] == '_';
  }

  /** The timestamp name is reached exactly when the name and all 998
      numbered candidates are taken. */
  lemma FallbackIffAllTaken(name: string, existing: set<string>, now: nat)
    ensures var stem, ext := Stem(name), Suffix(name);
      UniqueName(name, existing, now) == TimestampName(stem, now, ext)
      <==> (name in existing && forall l :: 1 <= l <= MAX_TRIES ==> CandidateName(stem, l, ext) in existing)
  {
    var stem, ext := Stem(name), Suffix(name);
    StemSuffixSplit(name);
    assert |TimestampName(stem, now, ext)| > |name|;
    FirstFreeFromSpec(stem, ext, existing, 1, now);
    var r := UniqueName(name, existing, now);
    if j :| 1 <= j <= MAX_TRIES && r == CandidateName(stem, j, ext) {
      CandidateIsNew(name, j, now);
    }
  }

  /** Every name the resolver returns is free, except on the timestamp path,
      where nothing is checked. */
  lemma UniqueNameFree(name: string, existing: set<string>, now: nat)
    ensures var r := UniqueName(name, existing, now);
      r !in existing || r == TimestampName(Stem(name), now, Suffix(name))
  {
    FirstFreeFromSpec(Stem(name), Suffix(name), existing, 1, now);
  }

  /** The set of the first `n` numbered candidates. */
  ghost function CandidateSet(stem: string, ext: string, n: nat): set<string>
  {
    if n == 0 then {} else CandidateSet(stem, ext, n - 1) + {CandidateName(stem, n, ext)}
  }

  lemma {:induction false} CandidateSetMembers(stem: string, ext: string, n: nat, x: string)
    ensures x in CandidateSet(stem, ext, n) <==> exists j :: 1 <= j <= n && x == CandidateName(stem, j, ext)
  {
    if n > 0 {
      CandidateSetMembers(stem, ext, n - 1, x);
    }
  }

  lemma {:induction false} CandidateSetSize(stem: string, ext: string, n: nat)
    ensures |CandidateSet(stem, ext, n)| == n
  {
    if n > 0 {
      CandidateSetSize(stem, ext, n - 1);
      var c := CandidateName(stem, n, ext);
      CandidateSetMembers(stem, ext, n - 1, c);
      if j :| 1 <= j <= n - 1 && c == CandidateName(stem, j, ext) {
        CandidateInjective(stem, ext, j, n);
      }
    }
  }

  /** The fallback needs a crowded directory: 999 names at least (the
      original and its 998 numbered variants). */
  lemma FallbackNeedsFullDirectory(name: string, existing: set<string>, now: nat)
    requires UniqueName(name, existing, now) == TimestampName(Stem(name), now, Suffix(name))
    ensures |existing| >= MAX_TRIES + 1
  {
    var stem, ext := Stem(name), Suffix(name);
    FallbackIffAllTaken(name, existing, now);
    var cands := CandidateSet(stem, ext, MAX_TRIES);
    forall x | x in cands ensures x in existing && x != name {
      CandidateSetMembers(stem, ext, MAX_TRIES, x);
      var j :| 1 <= j <= MAX_TRIES && x == CandidateName(stem, j, ext);
      CandidateIsNew(name, j, now);
    }
    CandidateSetSize(stem, ext, MAX_TRIES);
    var taken := cands + {name};
    assert name !in cands;
    assert |taken| == MAX_TRIES + 1;
    assert taken <= existing;
    assert existing == taken + (existing - taken);
    assert |existing| == |taken| + |existing - taken|;
  }

  /** The fallback is not checked against the directory: when the timestamp
      name happens to exist too, the resolver returns a taken name. */
  lemma FallbackMayCollide(name: string, now: nat)
    ensures var stem, ext := Stem(name), Suffix(name);
      var existing := {name} + CandidateSet(stem, ext, MAX_TRIES) + {TimestampName(stem, now, ext)};
      UniqueName(name, existing, now) in existing
  {
    var stem, ext := Stem(name), Suffix(name);
    var existing := {name} + CandidateSet(stem, ext, MAX_TRIES) + {TimestampName(stem, now, ext)};
    forall l | 1 <= l <= MAX_TRIES ensures CandidateName(stem, l, ext) in existing {
      CandidateSetMembers(stem, ext, MAX_TRIES, CandidateName(stem, l, ext));
    }
    FallbackIffAllTaken(name, existing, now);
  }

  /** `siren.mp3` taken gives `siren(1).mp3`; with that taken too, `siren(2).mp3`. */
  lemma SirenExample(now: nat)
    ensures UniqueName("siren.mp3", {"siren.mp3"}, now) == "siren(1).mp3"
    ensures UniqueName("siren.mp3", {"siren.mp3", "siren(1).mp3"}, now) == "siren(2).mp3"
  {
    var s := "siren.mp3";
    assert s[..8] == "siren.mp" && s[..8][..7] == "siren.m" && s[..8][..7][..6] == "siren.";
    assert LastIndexOf("siren.", '.') == 5;
    assert LastIndexOf("siren.m", '.') == 5;
    assert LastIndexOf("siren.mp", '.') == 5;
    assert LastIndexOf(s, '.') == 5;
    assert Stem("siren.mp3") == "siren";
    assert Suffix("siren.mp3") == ".mp3";
    assert NatToString(1) == "1";
    assert NatToString(2) == "2";
    assert CandidateName("siren", 1, ".mp3") == "siren(1).mp3";
    assert CandidateName("siren", 2, ".mp3") == "siren(2).mp3";
    assert "siren(2).mp3" != "siren(1).mp3" && "siren(2).mp3" != "siren.mp3";
  }
}
