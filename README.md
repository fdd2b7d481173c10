# Pixabay sound-effects bulk downloader: a Dafny model

`pixabay_sound_bulk_download.py` drives a browser over Pixabay's
sound-effects search results for "fire alarm". It walks result pages
`PAGE_START`..`PAGE_END` and collects the detail links of each page. For
each detail page it keeps an item only when its title or category mentions
`fire` or `siren`. It then triggers the download, waits for the file to
finish, and renames it to a sanitised, collision-free name. A counter stops
the run once `MAX_ITEMS` downloads have succeeded.

This project models the decision logic of that script and proves what it
guarantees:

- `text.dfy` (`Text`): the string operations the script relies on. These
  are ASCII `str.lower`, `str.isspace` and `str.strip`, `endswith`,
  startswith and substring tests, and decimal rendering of integers.
- `safe_filename.dfy` (`SafeName`): `safe_filename`.
- `unique_path.dfy` (`UniquePath`): `make_unique_path`. Its loop is a
  method proved against the specification function `UniqueName`. Path
  stem and suffix follow `pathlib`.
- `completion.dfy` (`Completion`): one poll of `wait_downloads_done` and
  its bounded loop. The directory listings seen while polling are an input
  sequence.
- `listing.dfy` (`Listing`): order-preserving deduplication
  (`dict.fromkeys`) and the title and category extraction once the regular
  expressions have matched. It also covers the keyword filter, the detail
  link list and the page URL of `goto_page`.
- `item.dfy` (`Item`): `download_via_detail` once the page is read. This
  means title and category extraction, filter, wait, name choice and
  rename, with the rename modelled as an update of the directory listing.
- `run.dfy` (`Run`): the nested loops of `main` and the `downloaded`
  counter, over the per-link outcomes of `download_via_detail`.
- `wrappers.dfy` (`Wrappers`): an `Option` type.

Some facts about the script that the model makes explicit:

- When several new audio files are present at once, `new_files[0]` is an
  arbitrary element of a set. The script has no "most recently modified"
  tie-break, so `PollStep` may return any new audio file.
- A title that sanitises to nothing gets no default name. The file name is
  then the extension alone (for example `.mp3`), or `_<hint>` followed by
  the extension when the CDN URL yields a hash hint.
- Spaces are replaced one by one with `_`; runs of spaces are not collapsed.
- The timestamp fallback of `make_unique_path` is not checked against the
  directory. When that name already exists, the rename replaces the file
  of that name (`UniquePath.FallbackMayCollide`,
  `Item.RenameOntoExistingOverwrites`).
- The keyword list is `["fire", "siren"]`. The comment beside it also
  mentions `bell`, but `bell` does not select an item (`Listing.BellIsNotAKeyword`).

## Model

| member | source | states |
|---|---|---|
| Text.Lower | pixabay_sound_bulk_download.py:73 | ASCII `str.lower()`, character by character; its properties are `LowerHasNoUpper`, `LowerIdempotent`, `LowerConcat` and `LowerKeeps` |
| Text.LowerHasNoUpper | pixabay_sound_bulk_download.py:73 | the lower-cased name holds no upper-case ASCII letter |
| Text.LowerIdempotent | pixabay_sound_bulk_download.py:73 | lower-casing twice is lower-casing once |
| Text.LowerConcat | pixabay_sound_bulk_download.py:73 | `(a + b).lower()` is `a.lower() + b.lower()` |
| Text.LowerKeeps | pixabay_sound_bulk_download.py:73 | a character that is not an ASCII capital is unchanged by lower-casing |
| Text.TrimStart | pixabay_sound_bulk_download.py:71 | the result is a suffix of the input; every removed character is whitespace; the result does not start with whitespace |
| Text.TrimEnd | pixabay_sound_bulk_download.py:71 | the result is a prefix of the input; every removed character is whitespace; the result does not end with whitespace |
| Text.StripSpec | pixabay_sound_bulk_download.py:71 | `strip()` yields the contiguous slice between leading and trailing whitespace runs; it neither starts nor ends with whitespace |
| Text.ContainsWithin | pixabay_sound_bulk_download.py:101 | a substring of `s` is a substring of any text that embeds `s` |
| Text.NatToString | pixabay_sound_bulk_download.py:79 | decimal rendering is non-empty, all digits, and has a leading `0` exactly for zero |
| Text.DecimalRoundTrip | pixabay_sound_bulk_download.py:79 | reading the rendered digits back gives the number |
| Text.NatToStringInjective | pixabay_sound_bulk_download.py:79 | different counters give different renderings |
| Text.IntToStringInjective | pixabay_sound_bulk_download.py:140 | different page numbers give different renderings, negatives included |
| Text.ReplaceChar | pixabay_sound_bulk_download.py:71 | `s.replace(a, b)` for one character: every `a` becomes `b`, all else stays; used by `Sanitize`, `CleanSlug` and `SearchUrl`, and pinned down on concrete input by `SirenSpaces` and `SearchSlugValue` |
| Text.EndsWith | pixabay_sound_bulk_download.py:63-64 | `str.endswith`: the last `|t|` characters are `t`; used by `IsAudioName`, `IsPartial` and `SafeFilenameShape` |
| Text.Contains | pixabay_sound_bulk_download.py:101 | `t in s`: some position of `s` starts with `t`; its properties are `ContainsWithin`, `ContainsSplit` and `ContainsSelf` |
| Text.IntToString | pixabay_sound_bulk_download.py:140 | `f"{page}"`: `-` before the digits of a negative number; non-empty; injective by `IntToStringInjective` |
| Text.Strip | pixabay_sound_bulk_download.py:71 | `str.strip()` as `TrimEnd(TrimStart(s))`; characterised by `StripSpec` |
| Text.ContainsSplit | pixabay_sound_bulk_download.py:101 | an occurrence in `a + m + b` with no character of a non-empty `m` lies inside `a` or inside `b` |
| SafeName.ReplaceUnsafe | pixabay_sound_bulk_download.py:71 | `re.sub(r'[...]', "_", name)`: each of the nine unsafe characters becomes `_`, the length is kept; see `SanitizeClean` |
| SafeName.WithHint | pixabay_sound_bulk_download.py:72 | `_` and the hint appended only when the hint is non-empty; see `HintKeptWhenShort` |
| SafeName.Take | pixabay_sound_bulk_download.py:73 | the slice `s[:120]`: the first `min(|s|, n)` characters |
| SafeName.Sanitize | pixabay_sound_bulk_download.py:71 | `re.sub(...).strip().replace(" ", "_")`; its properties are `SanitizeClean` |
| SafeName.SafeFilename | pixabay_sound_bulk_download.py:70-73 | `safe_filename`; its properties are `SafeFilenameClean`, `SafeFilenameShape`, `HintTruncatedAway`, `HintKeptWhenShort` and `SirenTitleExample` |
| SafeName.SanitizeClean | pixabay_sound_bulk_download.py:71 | the sanitised title holds none of the nine unsafe characters and no space, and has no whitespace at either end |
| SafeName.SafeFilenameClean | pixabay_sound_bulk_download.py:70-73 | the file name holds no unsafe character and no space, given an extension and hint without them |
| SafeName.SafeFilenameShape | pixabay_sound_bulk_download.py:70-73 | the name is at most 120 characters of the sanitised title and hint, then the extension; its exact length; it ends with the lower-cased extension; it has no upper-case letter |
| SafeName.HintTruncatedAway | pixabay_sound_bulk_download.py:72-73 | a sanitised title of 120 characters or more leaves no trace of the hint |
| SafeName.HintKeptWhenShort | pixabay_sound_bulk_download.py:72-73 | a short title keeps the whole hint after one underscore |
| SafeName.StripUnpadded | pixabay_sound_bulk_download.py:71 | text without whitespace at either end is unchanged by `strip()` |
| SafeName.SirenTitleExample | pixabay_sound_bulk_download.py:70-73 | `Fire Alarm Loud Siren!!! (HD)` with `.mp3` becomes `fire_alarm_loud_siren!!!_(hd).mp3` |
| UniquePath.Suffix | pixabay_sound_bulk_download.py:77 | `PurePath.suffix`: from the last dot, when that dot is neither the first nor the last character; see `StemSuffixSplit` |
| UniquePath.Stem | pixabay_sound_bulk_download.py:77 | `PurePath.stem`: the name without its suffix; see `StemSuffixSplit` |
| UniquePath.CandidateName | pixabay_sound_bulk_download.py:79 | `f"{stem}({i}){ext}"`; injective by `CandidateInjective`, new by `CandidateIsNew` |
| UniquePath.TimestampName | pixabay_sound_bulk_download.py:81 | `f"{stem}_{int(time.time())}{ext}"` with the clock as `now`; see `FallbackMayCollide` |
| UniquePath.FirstFreeFrom | pixabay_sound_bulk_download.py:78-81 | the candidate search from counter `i`; characterised by `FirstFreeFromSpec` |
| UniquePath.UniqueName | pixabay_sound_bulk_download.py:75-81 | `make_unique_path` as a function; its properties are `UniqueNameWhenFree`, `UniqueNameWhenTaken`, `FallbackIffAllTaken`, `UniqueNameFree`, `FallbackNeedsFullDirectory` and `FallbackMayCollide` |
| UniquePath.LastIndexOf | pixabay_sound_bulk_download.py:77 | the result is the last position of the character, or -1 when it is absent |
| UniquePath.StemSuffixSplit | pixabay_sound_bulk_download.py:77 | `stem + suffix` is the name; the suffix is empty or a dot followed by at least one non-dot character; the stem is not empty; when the last dot is inside the name the suffix starts there and the stem ends there; with no inner dot, or a final dot, the suffix is empty and the stem is the name |
| UniquePath.MakeUniquePath | pixabay_sound_bulk_download.py:75-81 | the loop returns exactly `UniqueName` |
| UniquePath.FirstFreeFromSpec | pixabay_sound_bulk_download.py:78-81 | the search from `i` returns the first free candidate numbered `i`..998, or the timestamp name when all are taken |
| UniquePath.UniqueNameWhenFree | pixabay_sound_bulk_download.py:76 | a name not present is returned unchanged |
| UniquePath.UniqueNameWhenTaken | pixabay_sound_bulk_download.py:78-80 | a taken name gets the smallest free number, and that name is free |
| UniquePath.CandidateInjective | pixabay_sound_bulk_download.py:79 | different counters give different candidate names |
| UniquePath.CandidateIsNew | pixabay_sound_bulk_download.py:79-81 | a candidate differs from the original name and from the timestamp name |
| UniquePath.FallbackIffAllTaken | pixabay_sound_bulk_download.py:76-81 | the timestamp name is chosen exactly when the name and all 998 candidates are taken |
| UniquePath.UniqueNameFree | pixabay_sound_bulk_download.py:75-81 | the result is not in the directory, unless it is the timestamp name |
| UniquePath.CandidateSetSize | pixabay_sound_bulk_download.py:78-79 | the first `n` candidates are `n` distinct names |
| UniquePath.FallbackNeedsFullDirectory | pixabay_sound_bulk_download.py:78-81 | the timestamp fallback needs at least 999 files already present |
| UniquePath.FallbackMayCollide | pixabay_sound_bulk_download.py:81 | the timestamp name is returned even when it is already present |
| UniquePath.SirenExample | pixabay_sound_bulk_download.py:75-80 | `siren.mp3` becomes `siren(1).mp3`, then `siren(2).mp3` |
| Completion.IsAudioName | pixabay_sound_bulk_download.py:64 | the lower-cased name ends with one of the five audio extensions; see `AudioNameIgnoresCase` and `PartialNeverAudio` |
| Completion.IsPartial | pixabay_sound_bulk_download.py:63 | the name ends with `.crdownload`, case-sensitively; see `UpperCaseMarkerIgnored` |
| Completion.HasPartial | pixabay_sound_bulk_download.py:63 | some name of the listing ends with `.crdownload`; see `PollStep` |
| Completion.NewAudio | pixabay_sound_bulk_download.py:64 | `new_files`: names of the listing absent from the baseline whose lower-cased form ends with an audio extension; see `SingleNewFileDetected` and `NewWavExample` |
| Completion.BaselineOf | pixabay_sound_bulk_download.py:59-60 | the given baseline, or the listing taken on entry when none was given; see `WaitDownloadsDone` |
| Completion.Ready | pixabay_sound_bulk_download.py:63-65 | no partial download and at least one new audio file; see `PollStep` and `SingleNewFileDetected` |
| Completion.PollStep | pixabay_sound_bulk_download.py:62-66 | a poll yields a file exactly when no `.crdownload` is present and a new audio file exists; that file is in the listing, not in the baseline, and has an audio extension |
| Completion.WaitDownloadsDone | pixabay_sound_bulk_download.py:56-68 | the result is `None` exactly when no poll is ready; otherwise it is a new audio file of the first ready poll; a missing baseline is the listing at the start |
| Completion.PartialNeverAudio | pixabay_sound_bulk_download.py:63-64 | a name ending in `.crdownload` never counts as audio |
| Completion.AudioNameIgnoresCase | pixabay_sound_bulk_download.py:64 | the audio-extension test ignores case |
| Completion.SingleNewFileDetected | pixabay_sound_bulk_download.py:63-66 | one new audio file and no partial download: that file is the only candidate |
| Completion.NewWavExample | pixabay_sound_bulk_download.py:63-66 | baseline `{a.mp3}`, listing `{a.mp3, b.wav}`: ready, and `b.wav` is found |
| Completion.UpperCaseMarkerIgnored | pixabay_sound_bulk_download.py:63 | the partial-download test is case-sensitive: `x.CRDOWNLOAD` does not block |
| Listing.Dedup | pixabay_sound_bulk_download.py:90 | `list(dict.fromkeys(s))`; characterised by `DedupSpec` and `DedupUnique` |
| Listing.FirstIndex | pixabay_sound_bulk_download.py:90 | the position of the first occurrence of an element |
| Listing.DedupSpec | pixabay_sound_bulk_download.py:90 | `list(dict.fromkeys(s))` holds every element of `s` once, in order of first occurrence |
| Listing.DedupUnique | pixabay_sound_bulk_download.py:90 | that characterisation pins down the result uniquely |
| Listing.DedupOfDistinct | pixabay_sound_bulk_download.py:90 | a list without repeats is unchanged |
| Listing.DedupIdempotent | pixabay_sound_bulk_download.py:90 | deduplicating twice is deduplicating once |
| Listing.DedupPrefix | pixabay_sound_bulk_download.py:137 | the deduplicated relative links come first, before any absolute link |
| Listing.FirstOccurrenceMembers | pixabay_sound_bulk_download.py:90 | deduplication loses no element and adds none |
| Listing.TitleAndCategory | pixabay_sound_bulk_download.py:83-91 | `extract_title_and_category` once the regular expressions have matched: the title of `ExtractTitle` and the text of `CategoryText`; used by `DownloadViaDetail` |
| Listing.CleanSlug | pixabay_sound_bulk_download.py:89 | `c.replace("-", " ").strip()`; see `KeepItemIff` |
| Listing.CategoryLabels | pixabay_sound_bulk_download.py:89-90 | the cleaned slugs, de-duplicated; characterised by `CategoryLabelsSpec` |
| Listing.Join | pixabay_sound_bulk_download.py:91 | `sep.join(xs)`; see `JoinKeepsLowerOccurrence` and `JoinLowerOccurrenceIn` |
| Listing.ExtractTitle | pixabay_sound_bulk_download.py:85-86 | the stripped `og:title` content, or `pixabay_audio` when the tag is missing |
| Listing.CategoryText | pixabay_sound_bulk_download.py:88-91 | the cleaned, de-duplicated slugs joined by `", "`; see `CategoryLabelsSpec` and `KeepItemIff` |
| Listing.CategoryLabelsSpec | pixabay_sound_bulk_download.py:88-90 | the labels are the cleaned slugs, each once, in order of first occurrence |
| Listing.JoinKeepsLowerOccurrence | pixabay_sound_bulk_download.py:91 | a keyword found in one label is found in the joined category text |
| Listing.JoinLowerOccurrenceIn | pixabay_sound_bulk_download.py:91 | an occurrence in the lower-cased joined text with no separator character lies inside one lower-cased label |
| Listing.KeepItem | pixabay_sound_bulk_download.py:100-101 | the keyword test on the lower-cased title and category; characterised by `KeepItemIff` |
| Listing.KeptOnlyWhenMentioned | pixabay_sound_bulk_download.py:88-101 | an item is kept only when its title or one of its cleaned category slugs mentions `fire` or `siren` |
| Listing.KeepItemIff | pixabay_sound_bulk_download.py:88-101 | an item is kept exactly when its title or one of its cleaned category slugs mentions a keyword, in any case |
| Listing.KeptWhenSomeSlugMatches | pixabay_sound_bulk_download.py:88-101 | an item is kept when any category slug mentions a keyword, whatever the title |
| Listing.KeptWhenTitleMentions | pixabay_sound_bulk_download.py:100-101 | an item is kept when its title contains a keyword |
| Listing.BellIsNotAKeyword | pixabay_sound_bulk_download.py:99-101 | `Door Bell` with no category is skipped |
| Listing.Absolutes | pixabay_sound_bulk_download.py:137 | `[f"https://pixabay.com{p}" for p in rels]`, of the same length; characterised by `AbsolutesMembers` |
| Listing.DetailLinks | pixabay_sound_bulk_download.py:137 | the prefixed relative links followed by the absolute ones, de-duplicated; characterised by `DetailLinksSpec` |
| Listing.AbsolutesMembers | pixabay_sound_bulk_download.py:137 | the absolute form of the relative links is exactly the site prefix on each |
| Listing.DetailLinksSpec | pixabay_sound_bulk_download.py:135-137 | the detail links are every absolute and prefixed relative link, each once, relative links first in order |
| Listing.SearchUrl | pixabay_sound_bulk_download.py:22 | `SEARCH_URL`; its value is stated by `SearchUrlValue` |
| Listing.PageUrl | pixabay_sound_bulk_download.py:140 | the search URL for page 1, else the search URL with `?pagi=<page>`; see `PageUrlInjective` and `PageUrlExtendsSearchUrl` |
| Listing.SearchUrlValue | pixabay_sound_bulk_download.py:20-22 | the search URL is `https://pixabay.com/en/sound-effects/search/fire-alarm/` |
| Listing.PageUrlInjective | pixabay_sound_bulk_download.py:140 | different page numbers lead to different URLs |
| Listing.PageUrlExtendsSearchUrl | pixabay_sound_bulk_download.py:140 | every page URL starts with the search URL, and only page 1 is the bare search URL |
| Run.PageCount | pixabay_sound_bulk_download.py:152 | the number of pages `range(PAGE_START, PAGE_END + 1)` visits, 0 when the range is empty; `RunPages` requires one outcome list per page |
| Run.Flatten | pixabay_sound_bulk_download.py:152-156 | the outcomes of all links, page after page; see `FlattenPrefix` |
| Run.CountTrue | pixabay_sound_bulk_download.py:158-159 | the number of successful calls; see `CountTrueMonotone` and `RunPages` |
| Run.FlattenPrefix | pixabay_sound_bulk_download.py:152-156 | links are tried page after page, in order |
| Run.CountTrueMonotone | pixabay_sound_bulk_download.py:158-159 | the success count never decreases as more links are tried |
| Run.StoppedCountIsCapped | pixabay_sound_bulk_download.py:151-159 | stopping at the first point where the count reaches `MAX_ITEMS` gives the capped total |
| Run.RunLinks | pixabay_sound_bulk_download.py:156-159 | the loop over one page's links tries a prefix of them, counts the successes among them, and stops early only once the count has reached `MAX_ITEMS` |
| Run.RunPages | pixabay_sound_bulk_download.py:151-159 | the links tried are a prefix of all links; the count is the number of successes among them; it stops early only at `MAX_ITEMS`; the result is the smaller of `MAX_ITEMS` and all successes |
| Item.DownloadViaDetail | pixabay_sound_bulk_download.py:93-131 | with the title and category taken from the page's `og:title` and slugs, success exactly when the item passes the filter, an audio URL exists and some poll is ready; a rename then hits the sanitised, unique name, and moves a new audio file of the first ready poll |
| Item.AfterRename | pixabay_sound_bulk_download.py:124-128 | the listing after `downloaded.rename(new_path)`: on success `from` is gone and `to` present, replacing any entry already named `to`; on failure unchanged; see `RenameLosesNoFile` and `RenameOntoExistingOverwrites` |
| Item.RenameOntoExistingOverwrites | pixabay_sound_bulk_download.py:125 | a successful rename onto a name already present replaces it, so the directory loses a file |
| Item.RenameLosesNoFile | pixabay_sound_bulk_download.py:120-128 | with at most 998 files, the new name is free, so a rename keeps the file count and a failed rename changes nothing |

## Left out

- The browser is not modelled: Selenium, Chrome options, page loads, `WebDriverWait` and the CDP download command. HTML is not modelled either. The regular expressions of `extract_title_and_category`, `collect_detail_links` and `download_via_detail` are inputs: the `og:title` match, the category slugs, the relative and absolute links, and the first CDN URL with its extension and `audio_` hint.
- `Listing.ExtractTitle` does not model `re.I` matching or the `[^"]+` capture. The captured title arrives already extracted; its `.strip()` is applied.
- The filesystem is a set of names. `glob`, `mkdir`, `exists` and `rename` reach the model only as listings and a success flag. On success `AfterRename` replaces an entry already named `to`, as POSIX `rename` does; Windows raises `FileExistsError`, which is the `done = false` case.
- Time, `time.sleep` and `random.uniform` (`human_sleep`) are left out. The 60-second timeout becomes a finite sequence of polls, and `int(time.time())` becomes a parameter `now`.
- `print` output and the exception message of a failed rename are left out.
- Unicode is not modelled: `Lower` maps only `A`-`Z`, and `IsSpace` covers only the ASCII whitespace `str.isspace` accepts. Python's full case mapping and Unicode whitespace are not modelled.
- `pathlib` is modelled on bare names inside one directory. Directory parts, and names such as `..` beyond the leading-dot rule, are not modelled.
- `build_driver`, the credentials read from the environment, and `HEADLESS` are left out. They are configuration with no logic to prove.
- Run.RunPages: the outcome of each `download_via_detail` call is an input. The link lists of all pages are fixed before the run, so a page's links cannot depend on earlier downloads.
- Run.RunPages: exceptions are not modelled. `driver.get` and the `WebDriverWait` timeout in `goto_page` and `download_via_detail` are not caught, and `main` has only `try`/`finally`. So a page that fails to load ends both loops and the run after the successes counted so far, and the final count is not printed. The contract describes only runs in which every call returns normally.
