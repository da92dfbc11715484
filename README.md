# YouTube clipboard downloader: a Dafny model of its core

`downloader.py` watches the clipboard. It validates every piece of text as a
YouTube link and queues each new link once. Worker threads then take links
from the queue and download a single video or a whole playlist. This project
models the decisions that program takes, and proves what they guarantee. It
does not model the media library, the clipboard or the threads.

The model is split into these modules:

- `PyStr`: the Python string operations the program relies on.
  - `str.strip()`, with Python's whole `isspace` set.
  - The substring test `sub in s`.
  - `s.split(sep)[-1]`.
- `Helpers`: `safe_filename` and the arithmetic of the progress callback.
- `UrlValidator`: `is_valid_youtube_url`.
  - The four regular expressions are a hand-written matcher (`Matches`).
  - The same four shapes are also described declaratively (`InShape`: a prefix in
    any case, a non-empty id, and an optional tail).
  - `MatchesIff` proves the matcher and the description agree.
- `Downloaders`:
  - the worker's dispatch between the video and playlist routines;
  - the rule that names a playlist's folder.
- `Pipeline`: the `downloaded_links` set and the FIFO `download_queue`.
  - The monitor's guarded enqueue, the worker's `get` and the removal in each
    routine's `finally` are first stated as functions on a value (`QueueState`).
  - Those functions carry the queue invariant. Lemmas over arbitrary runs of
    events give the FIFO and conservation laws.
  - The same steps are then methods of the `WorkQueue` class. The class holds
    the two globals as fields, and its methods are tied to the functions.
  - `MonitorPoll` and `WorkerTurn` are one turn of the monitor's loop and of a
    worker's loop.

## Model

| member | source | states |
|---|---|---|
| PyStr.IsSpace | downloader.py:68 | the characters `strip()` removes: those for which Python's `str.isspace()` holds (the ASCII tab to carriage return, the four separators 0x1C-0x1F, space, U+0085, U+00A0, U+1680, U+2000-U+200A, U+2028, U+2029, U+202F, U+205F, U+3000) |
| PyStr.Strip | downloader.py:68 | the result is no longer than the text and has no whitespace at either end |
| PyStr.StripSplit | downloader.py:68 | the text is whitespace, then what it strips to, then whitespace; nothing else is removed |
| PyStr.StripUnique | downloader.py:68 | a trimmed string with whitespace around it strips to exactly that string |
| PyStr.StripTrimmed | downloader.py:68 | a string with no whitespace at either end is left unchanged |
| PyStr.StripPadded | downloader.py:68 | adding whitespace around a text does not change what it strips to |
| PyStr.StripIdempotent | downloader.py:187 | stripping the already-stripped clipboard text again changes nothing |
| PyStr.Find | downloader.py:152 | returns the first index where the pattern occurs, or none when it occurs nowhere |
| PyStr.Contains | downloader.py:152 | `sub in s` holds exactly when the pattern occurs at some index |
| PyStr.SplitLast | downloader.py:112 | the last piece of `split(sep)`: it is a suffix of the text and holds no occurrence of the separator; it is the whole text or directly follows an occurrence; with no occurrence it is the whole text |
| PyStr.SplitLastAt | downloader.py:112 | where the last occurrence is known and nothing overlaps it, the last piece is exactly what follows it |
| Helpers.RemoveIllegal | downloader.py:46 | the substitution leaves no character of `\ / * ? : " < >` or the bar; every character of the result comes from the text, and every legal character of the text appears in the result |
| Helpers.RemoveIllegalCounts | downloader.py:46 | every legal character occurs in the result exactly as often as in the text, and no illegal one occurs |
| Helpers.RemoveIllegalClean | downloader.py:46 | a text without illegal characters is left exactly as it is |
| Helpers.RemoveIllegalConcat | downloader.py:46 | the deletion works character by character, so it distributes over concatenation |
| Helpers.SafeFilename | downloader.py:45-46 | the name is never empty, has no illegal character and no whitespace at either end, and is the placeholder or made only of the title's characters |
| Helpers.SafeFilenameFixpoint | downloader.py:45-46 | a name that is already clean comes back unchanged |
| Helpers.SafeFilenameIdempotent | downloader.py:45-46 | sanitising twice gives the same name as sanitising once |
| Helpers.StripEmpty | downloader.py:46 | `strip()` gives the empty string exactly when the text is all whitespace, the case in which `or` picks the placeholder |
| Helpers.SafeFilenameUntitled | downloader.py:46 | the placeholder comes out exactly when every character is illegal or whitespace, or when the cleaned title is the placeholder itself |
| Helpers.Downloaded | downloader.py:51-54 | bytes received plus bytes remaining is the file size; the count is within the file size and reaches it at the end |
| Helpers.DownloadedMonotone | downloader.py:51-54 | as the bytes remaining fall, the count shown never goes back |
| UrlValidator.LowerChar | downloader.py:70 | each ASCII upper-case letter folds to its own lower-case letter and every other character is left alone |
| UrlValidator.Lower | downloader.py:70 | the text folded character by character, of the same length |
| UrlValidator.MatchesAny | downloader.py:62-65 | the loop over the candidates succeeds exactly when one candidate prefix, an id and a tail match |
| UrlValidator.RestMatchesIff | downloader.py:62-65 | the greedy id match succeeds exactly when some split into a non-empty id and a tail exists |
| UrlValidator.MatchesAnySound | downloader.py:62-65 | what the matcher accepts has the described shape |
| UrlValidator.MatchesAnyComplete | downloader.py:62-65 | every text of the described shape is accepted by the matcher |
| UrlValidator.Matches | downloader.py:70 | `re.match` of one pattern under `re.IGNORECASE`: some candidate prefix, in any case, then a non-empty id, then a tail; its meaning is stated by `MatchesIff` |
| UrlValidator.MatchesIff | downloader.py:62-65 | the matcher for each pattern accepts exactly the texts of its shape |
| UrlValidator.IsValidYoutubeUrl | downloader.py:68-72 | strips the text, then accepts it when one of the four pattern matchers does, trying them in order; its meaning is stated by `IsValidYoutubeUrlIff` |
| UrlValidator.IsValidYoutubeUrlIff | downloader.py:59-72 | a text is valid exactly when its stripped form has one of the four shapes |
| UrlValidator.IsValidYoutubeUrlPadded | downloader.py:68 | whitespace around a text does not change whether it is valid |
| UrlValidator.TooShortRejected | downloader.py:62-65 | no pattern matches text shorter than the shortest prefix |
| UrlValidator.AcceptedAt | downloader.py:59-72 | a trimmed text that splits into a prefix of one shape, an id and a tail is valid |
| UrlValidator.AcceptedParts | downloader.py:59-72 | a prefix, an id and a tail written one after another, with no whitespace at the ends, make a valid link |
| UrlValidator.IsValidYoutubeUrlStripped | downloader.py:187-189 | validating the stripped clipboard text gives the same verdict as validating the raw text |
| UrlValidator.NotAUrlRejected | downloader.py:59-72 | the text `not a url` is rejected |
| UrlValidator.WatchPrefixFolds | downloader.py:62 | the lower-case watch prefix with `www.` is one of the watch prefixes |
| UrlValidator.WatchLinkAccepted | downloader.py:62 | a plain watch link with the id `abc123` is valid |
| Downloaders.Dispatch | downloader.py:152-155 | the playlist routine is chosen exactly when `playlist` occurs in the link, compared case-sensitively |
| Downloaders.PlaylistWordIn | downloader.py:63 | every lower-case playlist-page prefix holds the word `playlist` |
| Downloaders.PlaylistPageDispatched | downloader.py:152-155 | every link that starts with a lower-case playlist-page prefix goes to the playlist routine |
| Downloaders.UpperCasePrefixFolds | downloader.py:70 | the upper-case playlist prefix folds to a playlist prefix |
| Downloaders.UpperCasePlaylistValid | downloader.py:59-72 | an upper-case playlist link is valid, because matching ignores case |
| Downloaders.UpperCasePlaylistGoesToVideo | downloader.py:152-155 | that same upper-case playlist link is sent to the video routine, because the dispatch is case-sensitive |
| Downloaders.PlaylistFolderName | downloader.py:110-112 | as written: the sanitised title, unless it is the placeholder; otherwise the link after its last `list=` (a suffix holding no `list=`), or the whole link if it has none |
| Downloaders.PlaylistPrefixFolds | downloader.py:63 | the lower-case playlist prefix is one of the playlist prefixes |
| Downloaders.EscapingLinkValid | downloader.py:59-72 | the link `https://youtube.com/playlist?list=PL1&list=../x` is valid |
| Downloaders.PlaylistFolderEscapes | downloader.py:110-112 | for that valid link, and a title that sanitises to the placeholder, the folder is `../x` |
| Downloaders.PlaylistFolderDotTitle | downloader.py:110-112 | the sanitiser keeps `..`, so a playlist titled `..` gets the folder `..`, whatever the link |
| Downloaders.DotLinkValid | downloader.py:59-72 | the link `https://youtube.com/playlist?list=PL1&list=..` is valid |
| Downloaders.PlaylistFolderDotFallback | downloader.py:110-112 | for that valid link, and a title that sanitises to the placeholder, the folder is `..` |
| Downloaders.PlaylistFolderNameSafe | downloader.py:110-112 | corrected rule: the folder is never empty, never `.` or `..`, and never holds a path separator or another illegal character; otherwise it is the sanitised name the rule as written picks, and a dot name becomes the placeholder |
| Pipeline.EnqueueStep | downloader.py:189-192 | a valid link not in the seen set is added to the set and to the end of the queue; anything else changes nothing; the queue invariant is kept |
| Pipeline.DequeueStep | downloader.py:149 | the oldest link leaves the queue, and the set is unchanged; under the invariant that link is seen and no longer queued; the invariant is kept; an empty queue gives nothing |
| Pipeline.NotifyDoneStep | downloader.py:100-103 | the link leaves the seen set if it was there; the queue and every other link stay; the invariant is kept when the link is no longer queued |
| Pipeline.EnqueueTwice | downloader.py:189-192 | offering the same link twice in a row queues it at most once |
| Pipeline.EnqueueAfterDone | downloader.py:139-142 | once a link's download has finished, a valid link can be queued again |
| Pipeline.Step | downloader.py:187-192 | one event of the monitor or a worker, with a paste stripped before it is validated and queued; the event neither loses nor reorders links: the links taken, followed by the links queued after, equal the links queued before, followed by the links accepted |
| Pipeline.Run | downloader.py:24-25 | a run of events applied in order, collecting the links accepted and taken; its laws are stated by `RunConserves`, `FifoFromEmpty` and `RunKeepsInv` |
| Pipeline.RunConserves | downloader.py:24-25 | the same conservation law over every run of events |
| Pipeline.FifoFromEmpty | downloader.py:149 | from an empty queue, links are taken in the order they were accepted |
| Pipeline.RunKeepsInv | downloader.py:24-25 | every run in which finished links are no longer queued keeps the invariant: no link is queued twice and every queued link is seen |
| Pipeline.WorkQueue.constructor | downloader.py:24-25 | the queue and the seen set start empty |
| Pipeline.WorkQueue.Enqueue | downloader.py:190-192 | the guarded `add` and `put`, with the new state given by the enqueue step; the class invariant is kept |
| Pipeline.WorkQueue.Dequeue | downloader.py:149 | `get`, with the new state and the link given by the dequeue step; the link is now being downloaded |
| Pipeline.WorkQueue.NotifyDone | downloader.py:139-142 | the `finally` removal, with the new state given by the done step; the class invariant is kept |
| Pipeline.MonitorPoll | downloader.py:187-193 | one turn of the monitor: the stripped text goes through the enqueue step, and the clipboard is cleared exactly when the link was accepted |
| Pipeline.WorkerTurn | downloader.py:148-155 | one turn of a worker: the oldest link is taken and dispatched; afterwards it has left the seen set; an empty queue changes nothing |
| Pipeline.PasteTwice | downloader.py:189-192 | pasting a valid link twice before it is downloaded leaves exactly one queued copy and rejects the second paste |
| Pipeline.InvalidNeverQueued | downloader.py:189 | text that is not a valid link never reaches the queue and the clipboard is left as it was |
| Pipeline.PasteAfterDownload | downloader.py:100-103 | a link pasted again after its download has finished is accepted |
| Pipeline.FirstInFirstOut | downloader.py:149 | two different links come out of the queue in the order they went in |

## Left out

- The media library (`YouTube`, `Playlist`, streams, `download`) is not modelled. A download is the gap between `WorkerTurn`'s dispatch and its removal from the seen set. Whether a download succeeds or fails does not matter here, because the removal runs on both paths.
- The clipboard, `time.sleep`, `os.makedirs`, `datetime`, the coloured log, `tqdm` and the 30- and 80-character truncations of log text are I/O or display only. The clipboard text is a parameter of `MonitorPoll`.
- `os.path.join` is not modelled. `PlaylistFolderName` gives the name joined under the output directory, not the joined path.
- Threads and the blocking `Queue.get` are not modelled. The model runs the steps one at a time. A `get` on an empty queue, where a worker would wait, yields `None`.
- The unused `active_downloads` list and `task_done` are not modelled, because no decision depends on them.
- `UrlValidator.IsValidYoutubeUrl`: `[\w-]` is restricted to the ASCII letters, digits, `_` and `-`. Python's `\w` also admits every other Unicode letter and digit.
- `UrlValidator.IsValidYoutubeUrl`: case folding is ASCII only. Under `re.IGNORECASE`, Python also matches a few non-ASCII characters to ASCII letters (U+0130, U+0131, U+017F and U+212A).
- `Pipeline.WorkQueue.NotifyDone` requires that the link is no longer queued. Every caller meets this, because a worker finishes the link it took. Without it, the invariant that every queued link is in the seen set would not hold.
- The playlist folder fallback is the text after the last `list=` of the link, as the code does it. A plain description of the program would say "the raw playlist identifier", but the model follows the code.

## Findings

| source | as written | input that shows it | evidently intended | confidence | as-written member | corrected member |
|---|---|---|---|---|---|---|
| downloader.py:110-112 | when the title sanitises to the placeholder, the folder is the text after the last `list=` of the link, used without sanitising | link `https://youtube.com/playlist?list=PL1&list=../x`, which is valid, with a title that sanitises to `Untitled`: the folder is `../x`, outside the output directory | the fallback name is sanitised like the title, so it holds no path separator | medium, not executed | Downloaders.PlaylistFolderEscapes | Downloaders.PlaylistFolderNameSafe |
| downloader.py:110-112 | the sanitised title is used as the folder name as it is, and the sanitiser keeps dots | a playlist titled `..`: the folder is `..`, and joined under the output directory it names the directory's parent | a folder name that would name the output directory or its parent is replaced | medium, not executed | Downloaders.PlaylistFolderDotTitle | Downloaders.PlaylistFolderNameSafe |
| downloader.py:110-112 | the fallback can be `..` too, and sanitising it would not change that | link `https://youtube.com/playlist?list=PL1&list=..`, which is valid, with a title that sanitises to `Untitled`: the folder is `..` | the fallback is sanitised and a dot name is replaced | medium, not executed | Downloaders.PlaylistFolderDotFallback | Downloaders.PlaylistFolderNameSafe |
