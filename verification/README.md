# RequestsBridge index.html patcher — Dafny model

This project models the core of the Jellyfin "Requests Bridge" plugin. On
server start, the plugin injects a `<script>` tag into the web client's
`index.html`. It searches a fixed list of install locations for a file that
exists and is writable. It leaves a file alone when the file already carries
the start marker and the script URL. Otherwise it inserts a delimited block
after `<head>`, before `</body>`, or at the end. The search runs up to 60
times, 500 ms apart, and cancellation can stop it.

Modules:

- `AsciiText` (`ascii_text.dfy`) models `IndexOf` and `Contains` with
  `StringComparison.OrdinalIgnoreCase`, using ASCII case folding. The
  reference predicate is `MatchesAt`. `IndexOfCI` returns the first index
  where `MatchesAt` holds, or -1 when there is none. `ContainsCI` is the
  case-insensitive `Contains` (lines 141-142), true when `IndexOfCI` finds a
  match.
- `Injection` (`injection.dfy`) holds the constants (`ScriptUrl`,
  `MarkerStart`, `MarkerEnd`, the block; lines 22-24 and 149), the
  "already patched" test `Injection.IsPatched` (the two case-insensitive
  `Contains` calls at lines 141-142), the anchor choice `InsertionPoint`
  (lines 153-166) and the pure text patch `Patch`.
- `FilePatch` (`file_patch.dfy`) models an abstract file system as a map
  from path to `FileEntry(isFile, writable, content, fault)`. It defines the
  per-file step `TryPatchFile` and the first-match search `TryPatchOnce` over
  `IndexPaths`. The method also returns the candidates it visited.
- `Retry` (`retry.dfy`) models `PatchWithRetries` (lines 72-104) as a state
  machine (`Running`, `Succeeded`, `Exhausted`, `Cancelled`). Its input is a
  script of `Observation`s. Each observation says whether the loop condition
  sees cancellation, what the attempt returns (found path, nothing, or an
  exception), and whether cancellation interrupts the following delay.
  There are two versions of one pass of the loop:
  - `Retry.StepAsWritten`, folded by `RunAsWritten`, is the program as
    written (lines 77-103). When the `for` condition fails because of
    cancellation, control falls through to the exhaustion warning.
  - `Retry.Step`, folded by `Run`, is the corrected loop. Cancellation ends
    it quietly wherever it is seen (see Findings).

  The two differ only when the pass that stops the loop is a cancellation
  seen by the loop condition (`AsWrittenAgreesUnlessCheckCancelStops`,
  `CheckCancelReportsExhaustion`). What later passes show does not matter,
  so this covers a token that stays cancelled after the delay noticed it.
  `Outcome` is a closed-form reference that reads the result off the first
  pass that stops the loop. `RunMatchesOutcome` proves that the corrected
  loop `Run` computes it. The lemmas about `Run` below therefore describe
  the corrected loop, and hold for the program as written whenever the pass
  that stops the loop is not a cancellation seen by the loop condition.

## Model

| member | source | states |
|---|---|---|
| AsciiText.IndexOfCI | Jellyfin.Plugin.RequestsBridge/RequestsBridgeEntryPoint.cs:153-154 | The result is -1 exactly when the pattern occurs nowhere, ignoring case. Otherwise the pattern occurs at the result and at no earlier index. |
| AsciiText.IndexOfFrom | Jellyfin.Plugin.RequestsBridge/RequestsBridgeEntryPoint.cs:153-154 | The same first-occurrence property, for a search that starts at `from`. |
| AsciiText.ContainsCIMeansOccurs | Jellyfin.Plugin.RequestsBridge/RequestsBridgeEntryPoint.cs:141-142 | A case-insensitive `Contains` holds exactly when some index matches the pattern. |
| Injection.DetectionIgnoresCase | Jellyfin.Plugin.RequestsBridge/RequestsBridgeEntryPoint.cs:141-142 | Two contents that differ only in letter case are both patched or both unpatched. |
| Injection.BlockLayout | Jellyfin.Plugin.RequestsBridge/RequestsBridgeEntryPoint.cs:149 | The block starts and ends with a newline. It opens with the start marker at index 1 and closes with the end marker before the final newline. It carries the script URL inside the `src` attribute. |
| Injection.BlockIsSelfDetecting | Jellyfin.Plugin.RequestsBridge/RequestsBridgeEntryPoint.cs:141-149 | The block on its own passes the "already patched" test, so later runs recognise it. |
| Injection.InsertionPoint | Jellyfin.Plugin.RequestsBridge/RequestsBridgeEntryPoint.cs:153-166 | The insertion index lies within the content. Which index it is (after the first `<head>`, else before the first `</body>`, else the end) is fixed by HeadAnchorWins, BodyCloseFallback and AppendFallback. |
| Injection.Patch | Jellyfin.Plugin.RequestsBridge/RequestsBridgeEntryPoint.cs:138-167 | The result is always recognised as patched. Already-patched content is returned unchanged. Otherwise the result is exactly one block longer. |
| Injection.AlreadyPatchedIsUnchanged | Jellyfin.Plugin.RequestsBridge/RequestsBridgeEntryPoint.cs:141-146 | Content that contains both the start marker and the script URL, in any case, is not rewritten. |
| Injection.HeadAnchorWins | Jellyfin.Plugin.RequestsBridge/RequestsBridgeEntryPoint.cs:153-158 | If the first `<head>` is at p, the block goes right after it (at p+6), whether or not `</body>` occurs. |
| Injection.BodyCloseFallback | Jellyfin.Plugin.RequestsBridge/RequestsBridgeEntryPoint.cs:153-163 | With no `<head>` and the first `</body>` at q, the block goes right before q. |
| Injection.AppendFallback | Jellyfin.Plugin.RequestsBridge/RequestsBridgeEntryPoint.cs:164-167 | With neither anchor, the result is the content followed by the block. |
| Injection.PatchPreservesOriginal | Jellyfin.Plugin.RequestsBridge/RequestsBridgeEntryPoint.cs:156-167 | The block sits at the insertion point of the result. Cutting it out gives back the original content. |
| Injection.EmptyFileGetsBlock | Jellyfin.Plugin.RequestsBridge/RequestsBridgeEntryPoint.cs:164-167 | An empty file becomes exactly the block. |
| Injection.PatchIdempotent | Jellyfin.Plugin.RequestsBridge/RequestsBridgeEntryPoint.cs:141-167 | Patching twice gives the same content as patching once. |
| FilePatch.TryPatchFile | Jellyfin.Plugin.RequestsBridge/RequestsBridgeEntryPoint.cs:122-183 | Succeeds exactly when the path is usable: it exists, passes the writability probe, can be read, and is either patched already or can be written. A write replaces only that file's content, with `Patch` of the old content. Every other outcome leaves the file system unchanged. |
| FilePatch.SecondVisitIsNoOp | Jellyfin.Plugin.RequestsBridge/RequestsBridgeEntryPoint.cs:141-146 | After a successful visit, the next visit reports "already patched" and writes nothing. Every other path is as usable as before. |
| FilePatch.SearchCandidates | Jellyfin.Plugin.RequestsBridge/RequestsBridgeEntryPoint.cs:106-120 | Visits a prefix of the candidate list and returns the first usable path, which is the last one visited. All earlier candidates are unusable and untouched. With no match, every candidate was visited and nothing changed. |
| FilePatch.TryPatchOnce | Jellyfin.Plugin.RequestsBridge/RequestsBridgeEntryPoint.cs:106-120 | The same first-match guarantee over the fixed six-path `IndexPaths` list. It returns the first usable path and touches nothing before or after it. With no match, every path was visited, none is usable, and nothing changed. |
| Retry.FirstEvent | Jellyfin.Plugin.RequestsBridge/RequestsBridgeEntryPoint.cs:77-98 | The index of the first pass that succeeds or sees cancellation. Every earlier pass is quiet. |
| Retry.RunMatchesOutcome | Jellyfin.Plugin.RequestsBridge/RequestsBridgeEntryPoint.cs:72-104 | For every script, the corrected loop `Run` ends in the reference outcome decided by the first non-quiet pass or by the 60-attempt budget. The program as written differs only when the loop condition sees cancellation (see Findings). |
| Retry.AttemptsBounded | Jellyfin.Plugin.RequestsBridge/RequestsBridgeEntryPoint.cs:74-77 | The corrected loop `Run` makes at most 60 searches. Any script covering 60 passes ends it. |
| Retry.SucceedsAtFirstFound | Jellyfin.Plugin.RequestsBridge/RequestsBridgeEntryPoint.cs:81-85 | The loop succeeds with a path after n attempts exactly when attempt n is the first to find a file and nothing stopped the loop earlier. |
| Retry.CancelBeforeAttempt | Jellyfin.Plugin.RequestsBridge/RequestsBridgeEntryPoint.cs:77 | Cancellation seen before attempt k+1 ends the loop as cancelled after k attempts. Later observations do not matter. This is the corrected behaviour (see Findings). |
| Retry.CancelDuringDelay | Jellyfin.Plugin.RequestsBridge/RequestsBridgeEntryPoint.cs:97-98 | Cancellation during the delay after a failed attempt ends the loop before another search. Later observations do not matter. |
| Retry.ThrowDoesNotEndLoop | Jellyfin.Plugin.RequestsBridge/RequestsBridgeEntryPoint.cs:92-95 | An attempt that throws leads to the same outcome as one that finds nothing, so the loop continues. |
| Retry.ExhaustedOnlyAfterAllAttempts | Jellyfin.Plugin.RequestsBridge/RequestsBridgeEntryPoint.cs:77-103 | In the corrected loop `Run`, the exhaustion warning is reached exactly when all 60 passes are quiet, and then 60 attempts were made. The program as written also reaches it on cancellation at the loop condition (see Findings). |
| Retry.CheckCancelReportsExhaustion | Jellyfin.Plugin.RequestsBridge/RequestsBridgeEntryPoint.cs:77-103 | As written (`RunAsWritten`), cancellation seen by the loop condition after k quiet passes, for any k < 60, reaches the exhaustion warning after only k attempts. The corrected loop `Run` reports `Cancelled(k)`. |
| Retry.AsWrittenAgreesWithoutCheckCancel | Jellyfin.Plugin.RequestsBridge/RequestsBridgeEntryPoint.cs:77-103 | From any state, when the loop condition never sees cancellation, the loop as written and the corrected loop end in the same state. |
| Retry.AsWrittenAgreesUnlessCheckCancelStops | Jellyfin.Plugin.RequestsBridge/RequestsBridgeEntryPoint.cs:77-103 | The loop as written and the corrected loop end in the same state whenever the pass that stops the loop is not a cancellation seen by the loop condition. Passes after it, and every pass once the 60-attempt budget is spent, may show anything. So the `Run` lemmas hold for the program on such scripts. |
| Retry.AsWrittenCancelDuringDelay | Jellyfin.Plugin.RequestsBridge/RequestsBridgeEntryPoint.cs:97-98 | In the program as written, cancellation during the delay after a failed attempt k+1 ends the loop as cancelled after k+1 attempts. Later passes, including checks that see the still-cancelled token, do not matter. |
| Retry.AsWrittenAttemptsBounded | Jellyfin.Plugin.RequestsBridge/RequestsBridgeEntryPoint.cs:74-103 | The program as written makes at most 60 searches, on every script. |

## Left out

- Host lifecycle: `StartAsync`, `StopAsync`, `Dispose`, `Task.Run` and the linked cancellation source (lines 47-70). These are concurrency and host integration. Cancellation appears only as the flags in `Retry.Observation`.
- Real file I/O: `File.Exists`, the `IsWritable` open probe, UTF-8 reading and the BOM-less writer (lines 126, 132, 138, 169, 185-196). They become the `isFile`, `writable` and `fault` fields of `FilePatch.FileEntry`.
- FilePatch.TryPatchFile: assumes a failed write leaves the old content in place. The real `File.WriteAllText` truncates first, so a write that fails part-way can leave a partial file.
- The changes the host makes to the file system between attempts are not modelled. `Retry` takes each attempt's result as an input instead of running the search on an evolving file system.
- Delay timing: `Task.Delay(500)` is not modelled as time. It is only the point where cancellation is observed.
- Logging, including the debug line every 10th attempt. It carries no functional content.
- Unicode case folding: `OrdinalIgnoreCase` beyond ASCII is replaced by ASCII-only folding.
- UTF-16 indexing: .NET strings index UTF-16 code units, but the model indexes Dafny characters. The two agree on text without surrogate pairs.
- The race between the writability probe and the write, which involves concurrency that the code does not address.

## Findings

| source | as written | input that shows it | evidently intended | confidence | as-written member | corrected member |
|---|---|---|---|---|---|---|
| Jellyfin.Plugin.RequestsBridge/RequestsBridgeEntryPoint.cs:77-103 | The loop condition is `i <= maxAttempts && !ct.IsCancellationRequested`. When it fails because of cancellation, control falls through to the "could not automatically patch" warning. Only cancellation inside the delay returns quietly. | After k < 60 quiet passes, cancellation is requested after a delay completes (or, for k = 0, before the first check). The loop exits and logs the exhaustion warning after k attempts. | Cancellation is a quiet exit wherever it is seen. The warning appears only after all 60 attempts fail. | not executed; low (the window between the delay ending and the next check is narrow) | Retry.CheckCancelReportsExhaustion | Retry.ExhaustedOnlyAfterAllAttempts |
