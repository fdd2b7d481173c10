/** One detail page, `download_via_detail(driver, url)`, once the page has
    been read: the keyword filter, the wait for the download, and the rename
    of the downloaded file to a sanitised, collision-free name.  What the
    regular expressions extract and what the filesystem reports are inputs. */
module Item {
  import opened Wrappers
  import opened SafeName
  import opened UniquePath
  import opened Completion
  import opened Listing

  /** What the first CDN audio URL of the page yields: its lower-cased
      extension and the first six hex digits after `audio_` (or ""). */
  datatype AudioLink = AudioLink(ext: string, hashHint: string)

  /** A rename of the downloaded file `from` to `to`; `done` is false when
      `Path.rename` raised (the error is only logged). */
  datatype Rename = Rename(from: string, to: string, done: bool)

  /** The directory listing after a rename. */
  function AfterRename(dir: set<string>, r: Rename): set<string> {
    if r.done then dir - {r.from} + {r.to} else dir
  }

  /** `download_via_detail` once the page source is read.  `ogTitle` and
      `slugs` are what the regular expressions of
      `extract_title_and_category` matched; `link` is `None` when the page
      holds no CDN audio URL; `baseline` is the listing taken
      before the download is triggered, `polls` the listings seen while
      waiting, `dirAtRename` the listing `make_unique_path` consults, `now`
      the clock, and `renameOk` whether the rename succeeds.  Returns the
      source's boolean result and the rename it attempts, if any. */
  method DownloadViaDetail(ogTitle: Option<string>, slugs: seq<string>, link: Option<AudioLink>,
                           baseline: set<string>, polls: seq<set<string>>,
                           dirAtRename: set<string>, now: nat, renameOk: bool)
    returns (ok: bool, rename: Option<Rename>)
    ensures ok <==> KeepItem(ExtractTitle(ogTitle), CategoryText(slugs)) && link.Some?
                    && exists k :: 0 <= k < |polls| && Ready(baseline, polls[k])
    ensures rename.Some? <==> ok
    ensures rename.Some? ==>
      && rename.value.to == UniqueName(SafeFilename(ExtractTitle(ogTitle), link.value.ext, link.value.hashHint), dirAtRename, now)
      && rename.value.done == renameOk
      && exists k :: 0 <= k < |polls|
           && rename.value.from in NewAudio(baseline, polls[k])
           && !HasPartial(polls[k])
           && forall j :: 0 <= j < k ==> !Ready(baseline, polls[j])
  {
    var (title, category) := TitleAndCategory(ogTitle, slugs);
    if !KeepItem(title, category) {
      return false, None;
    }
    if link.None? {
      return false, None;
    }
    var downloaded := WaitDownloadsDone(Some(baseline), baseline, polls);
    if downloaded.None? {
      return false, None;
    }
    var newName := SafeFilename(title, link.value.ext, link.value.hashHint);
    var newPath := MakeUniquePath(newName, dirAtRename, now);
    return true, Some(Rename(downloaded.value, newPath, renameOk));
  }

  /** A successful rename onto a name already present replaces that entry,
      as POSIX `rename` does: the directory loses a file. */
  lemma RenameOntoExistingOverwrites(dir: set<string>, from: string, to: string)
    requires from in dir && to in dir && from != to
    ensures AfterRename(dir, Rename(from, to, true)) == dir - {from}
    ensures |AfterRename(dir, Rename(from, to, true))| == |dir| - 1
  {
  }

  /** In a directory of at most 998 files that holds the downloaded file, the
      chosen name is new, so the rename overwrites nothing: on success the
      file changes name and the number of files stays the same; on failure
      nothing changes. */
  lemma RenameLosesNoFile(dir: set<string>, from: string, name: string, now: nat, done: bool)
    requires from in dir && |dir| <= MAX_TRIES
    ensures var to := UniqueName(name, dir, now);
      var after := AfterRename(dir, Rename(from, to, done));
      && to !in dir && to != from
      && (done ==> to in after && from !in after && |after| == |dir|)
      && (!done ==> after == dir)
  {
    var to := UniqueName(name, dir, now);
    UniqueNameFree(name, dir, now);
    if to == TimestampName(Stem(name), now, Suffix(name)) {
      FallbackNeedsFullDirectory(name, dir, now);
    }
    if done {
      var after := dir - {from} + {to};
      assert |dir - {from}| == |dir| - 1;
    }
  }
}
