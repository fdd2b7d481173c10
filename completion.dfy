/** Download-completion detection, `wait_downloads_done(timeout, baseline)`.
    A directory listing is the set of its file names.  The wall-clock loop
    becomes a loop over the listings seen at successive polls: `polls[k]` is
    what `folder.glob("*")` returned on the k-th iteration before the timeout
    ran out, so `|polls|` plays the part of the timeout. */
module Completion {
  import opened Text
  import opened Wrappers

  /** `AUDIO_EXTS` */
  const AUDIO_EXTS: seq<string> := [".mp3", ".wav", ".flac", ".m4a", ".ogg"]

  /** The suffix Chrome gives a file it is still writing. */
  const PARTIAL_SUFFIX: string := ".crdownload"

  /** Case-insensitive test against the audio extensions. */
  predicate IsAudioName(n: string) {
    exists e :: e in AUDIO_EXTS && EndsWith(Lower(n), e)
  }

  /** Case-sensitive test for the in-progress marker. */
  predicate IsPartial(n: string) {
    EndsWith(n, PARTIAL_SUFFIX)
  }

  predicate HasPartial(cur: set<string>) {
    exists n :: n in cur && IsPartial(n)
  }

  /** `new_files`: audio files of the current listing absent from the baseline. */
  function NewAudio(baseline: set<string>, cur: set<string>): set<string> {
    set n | n in cur - baseline && IsAudioName(n)
  }

  /** A poll succeeds when no download is in progress and some new audio file
      has appeared. */
  predicate Ready(baseline: set<string>, cur: set<string>) {
    !HasPartial(cur) && NewAudio(baseline, cur) != {}
  }

  /** One iteration of the polling loop.  Which new file is picked is left
      open: the source takes the first element of a list built by iterating
      a set. */
  method PollStep(baseline: set<string>, cur: set<string>) returns (r: Option<string>)
    ensures r.Some? <==> Ready(baseline, cur)
    ensures HasPartial(cur) ==> r == None
    ensures r.Some? ==> r.value in cur && r.value !in baseline && IsAudioName(r.value)
  {
    r := None;
    if !(exists n :: n in cur && IsPartial(n)) {
      var newFiles := set n | n in cur - baseline && IsAudioName(n);
      if newFiles != {} {
        var n :| n in newFiles;
        r := Some(n);
      }
    }
  }

  /** The listing compared against: the given baseline, or the listing
      `atStart` taken on entry when the caller passed none. */
  function BaselineOf(baseline: Option<set<string>>, atStart: set<string>): set<string> {
    if baseline.None? then atStart else baseline.value
  }

  /** The polling loop: returns the file found at the first successful poll,
      or `None` once the polls run out. */
  method WaitDownloadsDone(baseline: Option<set<string>>, atStart: set<string>, polls: seq<set<string>>)
    returns (r: Option<string>)
    ensures var base := BaselineOf(baseline, atStart);
      r.None? <==> forall k :: 0 <= k < |polls| ==> !Ready(base, polls[k])
    ensures var base := BaselineOf(baseline, atStart);
      r.Some? ==>
        exists k :: 0 <= k < |polls| && r.value in NewAudio(base, polls[k])
          && !HasPartial(polls[k])
          && forall j :: 0 <= j < k ==> !Ready(base, polls[j])
  {
    var base := if baseline.None? then atStart else baseline.value;
    var i := 0;
    while i < |polls|
      invariant 0 <= i <= |polls|
      invariant forall j :: 0 <= j < i ==> !Ready(base, polls[j])
    {
      var step := PollStep(base, polls[i]);
      if step.Some? {
        return step;
      }
      i := i + 1;
    }
    return None;
  }

  // ---------------------------------------------------------------------
  // Properties of the detector

  /** A name carrying the in-progress marker is never taken for an audio
      file, whatever extension precedes the marker. */
  lemma PartialNeverAudio(n: string)
    requires IsPartial(n)
    ensures !IsAudioName(n)
  {
    var low := Lower(n);
    assert n[|n| - 1] == 'd';
    assert low[|low| - 1] == 'd';
    forall e | e in AUDIO_EXTS ensures !EndsWith(low, e) {
      assert e[|e| - 1] != 'd';
    }
  }

  /** The extension test ignores case. */
  lemma AudioNameIgnoresCase(n: string)
    ensures IsAudioName(n) <==> IsAudioName(Lower(n))
  {
    LowerIdempotent(n);
  }

  /** When exactly one new file has appeared, it is an audio file and no
      download is in progress, a poll returns that file. */
  lemma SingleNewFileDetected(baseline: set<string>, cur: set<string>, f: string)
    requires cur - baseline == {f} && IsAudioName(f) && !HasPartial(cur)
    ensures Ready(baseline, cur) && NewAudio(baseline, cur) == {f}
  {
    assert f in NewAudio(baseline, cur);
  }

  /** Baseline `{a.mp3}` and listing `{a.mp3, b.wav}`: the detector returns `b.wav`. */
  lemma NewWavExample()
    ensures Ready({"a.mp3"}, {"a.mp3", "b.wav"})
    ensures NewAudio({"a.mp3"}, {"a.mp3", "b.wav"}) == {"b.wav"}
  {
    var cur: set<string> := {"a.mp3", "b.wav"};
    assert cur - {"a.mp3"} == {"b.wav"};
    assert Lower("b.wav") == "b.wav";
    assert EndsWith(Lower("b.wav"), ".wav");
    assert IsAudioName("b.wav");
    forall n | n in cur ensures !IsPartial(n) {
      assert |n| < |PARTIAL_SUFFIX|;
    }
    SingleNewFileDetected({"a.mp3"}, cur, "b.wav");
  }

  /** The marker test is case-sensitive: an upper-case `.CRDOWNLOAD` does not
      hold the detector back. */
  lemma UpperCaseMarkerIgnored()
    ensures Ready({}, {"x.CRDOWNLOAD", "b.wav"})
  {
    var cur: set<string> := {"x.CRDOWNLOAD", "b.wav"};
    assert Lower("b.wav") == "b.wav";
    assert EndsWith(Lower("b.wav"), ".wav");
    assert "b.wav" in NewAudio({}, cur);
    assert "x.CRDOWNLOAD"[1..] != PARTIAL_SUFFIX;
    forall n | n in cur ensures !IsPartial(n) {
      if n == "b.wav" {
        assert |n| < |PARTIAL_SUFFIX|;
      } else {
        assert n[|n| - |PARTIAL_SUFFIX|..] == "x.CRDOWNLOAD"[1..];
      }
    }
  }
}
