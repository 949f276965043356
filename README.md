# RAG code assistant: the verified core

This project models the core logic of a retrieval-augmented code assistant. The assistant ingests a codebase, chunks its files, and answers questions about it through a language-model chain. The model covers four places in the program:

- **File processing** (`src/utils/file_processor.py`):
  - file admission (`validate_file`, `read_file_content`);
  - directory scanning over an abstract file tree, recursive with pruning and flat;
  - the overlapping chunker `chunk_content`.
- **Security validators** (`src/utils/security.py`):
  - the three validators that return a verdict, for queries, file paths and file content;
  - `sanitize_input`;
  - the per-user sliding-window rate limiter `check_rate_limit`.
- **Configuration** (`src/config.py`): the extension allow-list, the size ceiling, the API-key check and the raising branch of `validate_configuration`.
- **Answer pipeline** (`src/assistant/code_assistant.py`):
  - the branch structure of `ask_question`;
  - the 500-character source previews;
  - the conversation memory that the chain extends and `clear_conversation_history` empties.

Files:

- `wrappers.dfy`: `Option` and `Result`.
- `text.dfy`: the Python string built-ins the source relies on (`strip` and `isspace`, `startswith`/`endswith`, substring `in`, `rfind`, `split`/`join`, ASCII `lower`, and `replace` with an empty string).
- `config.dfy`: module `Config`.
- `file_processor.dfy`: module `FileProcessor`.
- `security.dfy`: module `Security`.
- `code_assistant.dfy`: module `Assistant`.

Some things are not interpreted but passed in as parameters:

- the file system: a `PathStat` per path and a `Node` tree per directory;
- the regular-expression engine: `search(pattern, text)`;
- the clock: an integer `now`;
- the retrieval chain: `chain(question, history)`;
- the document count of the vector store.

Facts about the code the model follows:

- `ask_question` passes the question to the chain without calling `validate_query`.
- The conversation memory has no length cap.
- The limiter uses its own constant ceiling of 60, not the configured `MAX_REQUESTS_PER_MINUTE`.
- `chunk_content` does not always terminate (see Findings).

## Model

| member | source | states |
|---|---|---|
| Config.AnyEndsWith | src/config.py:31-33 | true iff some entry of the list is a suffix of the filename |
| Config.ValidateFileExtension | src/config.py:31-33 | a filename passes iff some allow-list entry is a suffix of it, compared case-sensitively |
| Config.ValidateFileSize | src/config.py:36-38 | a size passes iff it is at most the ceiling, the ceiling itself included |
| Config.IsConfigured | src/config.py:48-51 | holds iff the API key is set and non-empty |
| Config.ValidateConfiguration | src/config.py:81-88 | fails with the missing-key message iff the key is not configured, else returns true |
| Config.ShellScriptsAdmittedByDefault | src/config.py:27-28 | the default allow-list admits `deploy.sh` |
| Config.UpperCaseExtensionRejected | src/config.py:31-33 | the suffix test is case-sensitive: `X.PY` is refused under the defaults |
| Config.SizeCeilingInclusive | src/config.py:35-38 | with the default ceiling 10485760 bytes are admitted and 10485761 refused |
| FileProcessor.Admit | src/utils/file_processor.py:34-54 | names the first failing check, in order: missing path, extension, size unavailable (the `except` branch), too large |
| FileProcessor.ValidateFile | src/utils/file_processor.py:23-54 | admitted iff the path exists, its size is known, the extension is allowed and the size is within the ceiling |
| FileProcessor.ReadFileContent | src/utils/file_processor.py:56-81 | `None` whenever validation fails; otherwise the decoded text, or `None` when decoding fails |
| FileProcessor.FilesOf | src/utils/file_processor.py:171 | the `files` of `os.walk` are entries of the directory and are all non-directories |
| FileProcessor.FilesOfComplete | src/utils/file_processor.py:171 | every non-directory entry is among the `files` |
| FileProcessor.DirsOfComplete | src/utils/file_processor.py:171 | every directory entry is among the `dirs` |
| FileProcessor.KeepDirs | src/utils/file_processor.py:173 | every kept directory was listed and is neither hidden nor `node_modules`, `__pycache__` or `.git` |
| FileProcessor.KeepDirsComplete | src/utils/file_processor.py:173 | every directory that is not pruned is kept |
| FileProcessor.AdmittedPathsMembers | src/utils/file_processor.py:175-178 | a path is collected from a directory's files iff it is the join of some file's name and `validate_file` admits it |
| FileProcessor.AdmitFiles | src/utils/file_processor.py:175-178 | the loop over `files` collects exactly the admitted paths, in order |
| FileProcessor.JoinPathJoins | src/utils/file_processor.py:176 | `os.path.join(root, name)` is `root`, one `/` unless `root` is empty or already ends with one, then `name` |
| FileProcessor.AdmittedUnderTop | src/utils/file_processor.py:175-178 | every path collected from a directory's files starts with that directory's path |
| FileProcessor.WalkTree | src/utils/file_processor.py:170-178 | the recursive walk returns the top-down scan: admitted files first, then each unpruned subdirectory in listing order |
| FileProcessor.WalkSubdirs | src/utils/file_processor.py:171-173 | descending into the kept subdirectories one after another returns their scans concatenated in listing order |
| FileProcessor.WalkFindsExactly | src/utils/file_processor.py:170-178 | a path is returned iff it is an admitted file reached through unpruned directories only, so nothing under a pruned directory is returned |
| FileProcessor.WalkOnlyFound | src/utils/file_processor.py:170-178 | every returned path is an admitted file reached through unpruned directories |
| FileProcessor.OwnFileFound | src/utils/file_processor.py:175-178 | a path collected from a directory's own files is reached from that directory |
| FileProcessor.SubdirFound | src/utils/file_processor.py:171-173 | a path found below a kept subdirectory is reached from the parent |
| FileProcessor.WalkFindsFound | src/utils/file_processor.py:170-178 | every admitted file reached through unpruned directories is returned |
| FileProcessor.WalkEachFinds | src/utils/file_processor.py:171-178 | the scans of the kept subdirectories contain a path iff one of them does |
| FileProcessor.WalkUnderTop | src/utils/file_processor.py:171-178 | every path the recursive scan returns starts with the path of the directory it scanned |
| FileProcessor.ListedFilesMembers | src/utils/file_processor.py:180-183 | the flat scan returns a path iff some entry is a regular file with that joined path that `validate_file` admits |
| FileProcessor.ListedUnderTop | src/utils/file_processor.py:180-183 | every path the flat scan returns starts with the scanned directory's path |
| FileProcessor.ScanDirectory | src/utils/file_processor.py:156-189 | empty for a missing or non-directory root; the top-down walk when recursive; admitted regular entries in listing order when not |
| FileProcessor.WindowEnd | src/utils/file_processor.py:102-109 | the window end lies after `start` and at most `chunk_size` past it |
| FileProcessor.WindowEndBreaks | src/utils/file_processor.py:105-109 | inside the content, a newline strictly after `start` ends the window just after the last such newline; otherwise the end is `start + chunk_size` |
| FileProcessor.BreakPoint | src/utils/file_processor.py:102-109 | the inline computation of `end` agrees with `WindowEnd` |
| FileProcessor.Windows | src/utils/file_processor.py:101-117 | the windows visited by a terminating run start inside the content, are at most `chunk_size` long, and the first starts at `start` |
| FileProcessor.ChunksOfSnoc | src/utils/file_processor.py:111-113 | one more window appends its stripped piece when non-empty |
| FileProcessor.ChunkContent | src/utils/file_processor.py:83-120 | short content comes back as `[content]` unstripped; otherwise the chunks are the non-empty stripped pieces of the visited windows, each of length 1 to `chunk_size` |
| FileProcessor.ChunksBounded | src/utils/file_processor.py:102-113 | no more chunks than windows, and every chunk is non-empty and at most `chunk_size` long |
| FileProcessor.PieceBounded | src/utils/file_processor.py:111 | a stripped window is no longer than `chunk_size` |
| FileProcessor.ChunksArePieces | src/utils/file_processor.py:111-113 | every chunk is the stripped piece of some window, and every non-empty piece is a chunk |
| FileProcessor.WindowsChained | src/utils/file_processor.py:101-117 | every window ends where the break rule puts it, the next starts `overlap` before that end, and the last end minus `overlap` reaches the end of the content |
| FileProcessor.WindowAt | src/utils/file_processor.py:101-117 | the same facts for one window |
| FileProcessor.WindowsCover | src/utils/file_processor.py:101-117 | with a non-negative overlap, every position from `start` on lies in some window |
| FileProcessor.NextStartAgrees | src/utils/file_processor.py:101-115 | from a non-negative start, one iteration moves `start` to the window end less `overlap`, the step the chunk windows take |
| FileProcessor.ReachesEndEnds | src/utils/file_processor.py:101-117 | a run that stops with `start` never negative is a run of the loop as written, so the chunks stated for it are the loop's |
| FileProcessor.NegativeStartStep | src/utils/file_processor.py:103-115 | from a start between `-chunk_size` and -1, `rfind` with a negative bound searches an empty range: the next start is `-overlap` from -2 or below, and `chunk_size - 1 - overlap` from -1 |
| FileProcessor.EndBound | src/utils/file_processor.py:103-115 | a window never ends past both `start + chunk_size` and the length of the content |
| FileProcessor.NeverReachesLength | src/utils/file_processor.py:101-117 | with `overlap >= chunk_size` the next start stays below the length from any start, so the loop never ends |
| FileProcessor.StuckBelowMinusOne | src/utils/file_processor.py:101-117 | with `2 <= overlap <= chunk_size`, a start between `-chunk_size` and -2 is followed by `-overlap` for ever, so the loop never ends |
| FileProcessor.RepeatedStartNeverEnds | src/utils/file_processor.py:101-117 | a start whose iteration gives the same start back makes the loop run forever |
| FileProcessor.FirstStepBackNeverEnds | src/utils/file_processor.py:101-117 | a first window whose next start is at or below 0 leaves no run with `start` non-negative, and the loop never ends unless that next start is exactly -1 |
| FileProcessor.OverlapAtLeastChunkSizeNeverEnds | src/utils/file_processor.py:101-117 | `overlap >= chunk_size` on content longer than `chunk_size` never terminates, negative starts included |
| FileProcessor.NewlineInsideOverlapDoesNotAdvance | src/utils/file_processor.py:105-115 | if the last newline of a window lies within `overlap` of its start, the next start does not advance |
| FileProcessor.FirstNewlineInsideOverlapNeverEnds | src/utils/file_processor.py:105-117 | such a newline at offset `q` of the first window makes the loop never terminate, except when `overlap == q + 2 < chunk_size` |
| FileProcessor.StallingContent | src/utils/file_processor.py:105-109 | the example has 1051 characters and its only newline at offset 50 |
| FileProcessor.DefaultsStallOnEarlyNewline | src/utils/file_processor.py:83-117 | with the defaults 1000/200 that content gives starts 0, -149, then -200 for ever: the loop never ends |
| FileProcessor.RecoveringContent | src/utils/file_processor.py:105-109 | the example has 15 characters and its only newline at offset 1 |
| FileProcessor.StartMinusOneRecovers | src/utils/file_processor.py:101-117 | with chunk size 10 and overlap 3 that content has no run with `start` non-negative, yet the loop ends after the starts 0, -1, 6 and 13 |
| FileProcessor.SteadyProgressEnds | src/utils/file_processor.py:101-117 | if every window's next start advances, the loop ends within `len(content)` iterations |
| FileProcessor.ReachesEndMonotone | src/utils/file_processor.py:101-117 | a run that ends within some number of iterations also ends within any larger number |
| FileProcessor.NoOverlapEnds | src/utils/file_processor.py:101-117 | with overlap 0 the loop always terminates |
| FileProcessor.NewlineFreeEnds | src/utils/file_processor.py:101-117 | content without newlines terminates whenever `0 <= overlap < chunk_size` |
| FileProcessor.AdvancedStart | src/utils/file_processor.py:115 | the corrected next start always moves forward, and it is `end - overlap` whenever that does |
| FileProcessor.FixedWindows | src/utils/file_processor.py:101-117 | the corrected run's windows start inside the content and are at most `chunk_size` long |
| FileProcessor.FixedWindowAt | src/utils/file_processor.py:101-117 | each corrected window ends by the break rule and the next starts at the corrected start |
| FileProcessor.ChunkContentFixed | src/utils/file_processor.py:83-120 | the corrected chunker always terminates, with the same chunk guarantees as the original |
| FileProcessor.FixedWindowsCover | src/utils/file_processor.py:101-117 | the corrected windows cover every position of the content |
| FileProcessor.FixedAgreesWhenProgressing | src/utils/file_processor.py:115 | where the original always advances, the corrected chunker visits exactly the same windows |
| Security.FirstMatch | src/utils/security.py:48-54 | returns the first pattern in list order that matches, and reports none only when no pattern matches |
| Security.FoundKeywords | src/utils/security.py:65-71 | returns the matching keywords, all of them and only them, in list order |
| Security.ValidateQuery | src/utils/security.py:36-84 | reports the first harmful pattern if any matches, whatever the length; else too long iff over 1000 characters; else the contained keywords of the lower-cased query; safe iff none of these |
| Security.UpperCaseKeywordReported | src/utils/security.py:70-71 | an otherwise clean query containing `PASSWORD` is reported for `password` |
| Security.PathRoot | src/utils/security.py:104 | the root is empty iff the path is relative, and is `//` iff the path starts with exactly two slashes |
| Security.KeepParts | src/utils/security.py:104 | normalisation keeps the non-empty components other than `.`, each as often as it occurs, in order |
| Security.PathStr | src/utils/security.py:104-107 | `str(path)` is never empty and begins with the root |
| Security.PathName | src/utils/security.py:125 | `path.name` holds no `/`; it is empty iff no component is kept, else it is a kept component other than `.` |
| Security.PathStrIsNormal | src/utils/security.py:104-107 | `str(Path(p))` parses back to the same root and components, so normalising it again changes nothing |
| Security.Suffix | src/utils/security.py:125 | the suffix runs from the last dot to the end of the name, when that dot is neither the first nor the last character; otherwise it is empty |
| Security.ValidateFilePath | src/utils/security.py:103-134 | in order: `..` anywhere; then an absolute path not starting with an allowed directory as a string prefix; then a deny-listed lower-cased suffix; otherwise safe |
| Security.TraversalSeenInRawPath | src/utils/security.py:104-107 | the `..` test on the normalised path answers as it would on the raw path |
| Security.DotDotJoin | src/utils/security.py:107 | joining with `/` creates no `..`: the join has one iff some component has one |
| Security.ValidateFilePathFixed | src/utils/security.py:113-121 | the corrected directory test admits an absolute path only when it is an allowed directory or lies below one |
| Security.SiblingOfAllowedDirAdmitted | src/utils/security.py:116-117 | `/homework/a.py` passes the written test and fails the corrected one |
| Security.ShellScriptAdmittedThenRefused | src/utils/security.py:124-125 | `deploy.sh` passes the scanner's default extension test but the path validator refuses it for `.sh` |
| Security.SanitizeInput | src/utils/security.py:153-164 | the result is NUL-free and is the first `min(1000, n)` characters of the stripped, NUL-free input |
| Security.SanitizeKeepsCleanInput | src/utils/security.py:155-164 | stripped, NUL-free input of at most 1000 characters comes back unchanged |
| Security.SanitizeNotIdempotent | src/utils/security.py:155-158 | stripping before NUL removal can leave a leading space: sanitising `"\0 a"` twice differs from once |
| Security.ValidateFileContent | src/utils/security.py:220-252 | reports the first matching secret pattern in list order; only when none matches is the encodability test applied |
| Security.EveryStringEncodes | src/utils/security.py:241-247 | every string holds only scalar values, so UTF-8 encoding never fails |
| Security.Recent | src/utils/security.py:188-191 | keeps the timestamps less than 60 seconds old, each as often as it is stored, and drops the rest |
| Security.RecentInOrder | src/utils/security.py:188-191 | the kept timestamps stay in their stored order |
| Security.NextLog | src/utils/security.py:188-202 | the new list is the pruned list, followed by `now` exactly when the pruned list is under the ceiling; every entry is recent, and the ceiling is never exceeded |
| Security.SecurityValidator.constructor | src/utils/security.py:32-34 | no stored requests and a ceiling of 60 per minute |
| Security.SecurityValidator.CheckRateLimit | src/utils/security.py:170-207 | only this user's list changes: it is pruned, and `now` is appended iff the pruned count is under the ceiling; returns that decision and the stored count, never above the ceiling |
| Security.Replay | src/utils/security.py:184-202 | the list stored after any sequence of calls never exceeds the ceiling |
| Security.RecentOfAllowed | src/utils/security.py:188-191 | pruning at a later time the allowed calls of an earlier window gives the allowed calls of the later window |
| Security.ReplayIsAllowedWindow | src/utils/security.py:184-202 | with a clock that never runs backwards, the stored list is exactly the allowed calls of the last 60 seconds |
| Security.SlidingWindowBound | src/utils/security.py:194-202 | with a clock that never runs backwards, no 60-second window ending at a call holds more allowed calls than the ceiling |
| Assistant.Preview | src/assistant/code_assistant.py:110 | content of at most 500 characters is kept whole; longer content becomes its first 500 characters plus `...`, 503 in total |
| Assistant.FormatSources | src/assistant/code_assistant.py:106-112 | one source per document, in order, with the document's preview and metadata |
| Assistant.CodeAssistant.constructor | src/assistant/code_assistant.py:33-36 | the conversation memory starts empty |
| Assistant.CodeAssistant.AskQuestion | src/assistant/code_assistant.py:71-128 | blank question, then empty store, each a fixed answer that leaves memory alone; a raising chain gives the apology with the error text; a reply gives its answer (or `No answer generated.`), its formatted sources and the chain's memory |
| Assistant.CodeAssistant.ConversationHistory | src/assistant/code_assistant.py:130-139 | returns the conversation memory as it stands |
| Assistant.CodeAssistant.ClearConversationHistory | src/assistant/code_assistant.py:143-156 | returns true and empties the memory, or returns false and leaves it when clearing raises |
| Assistant.CodeAssistant.GetSystemInfo | src/assistant/code_assistant.py:158-178 | reports the configured model and token limit, the store statistics, and the current history length |
| Text.StripEnds | src/assistant/code_assistant.py:83 | `strip()` is empty iff the string is all whitespace; otherwise it starts and ends with a non-space |
| Text.JoinSplit | src/utils/security.py:104 | joining the `/`-split components with `/` gives the path back |

## Left out

- File system: `os.path.exists`, `os.path.getsize`, `open`, `os.walk` and `os.listdir` are an abstract `PathStat` per path and a `Node` tree. Unreadable subdirectories, symbolic links and special files are not represented.
- FileProcessor.ReadFileContent: the UTF-8 decoding of the file is a parameter (`None` when it fails).
- `get_file_metadata`, `_calculate_file_hash` and `generate_file_hash`: `stat` calls and SHA-256 hashing, outside this model.
- `log_security_event` and every log line: logging has no effect on results.
- FileProcessor.ChunkContent: its precondition asks that the loop ends within `steps` iterations with `start` never negative. Runs that never end have no result to state; `Ends` and the lemmas above say when that happens, negative starts included. Runs that go negative and still end are excluded too: a start of exactly -1 can recover (`StartMinusOneRecovers`), and the chunks such a run emits, sliced with Python's negative indices, are not modelled.
- FileProcessor.ChunkContent: `chunk_size <= 0` with content longer than `chunk_size` is not modelled.
- `chunk_content` is not what ingestion uses (the embedding layer calls a library splitter). It is modelled on its own.
- Security.ValidateQuery: the `reason` strings are not modelled; the verdict carries the matched pattern, the length or the keywords they are built from.
- Regular expressions: the patterns are uninterpreted, so only the order, the stop at the first match and the reported pattern are proved.
- Security.ValidateQuery and Security.ValidateFilePath: `lower()` is ASCII-only. The `except` branches of the validators cannot be reached on string inputs and are not modelled.
- Security.ValidateFilePath: only POSIX path syntax is modelled.
- Security.ValidateFileContent: Dafny strings cannot hold lone surrogates, so the binary verdict is unreachable in the model (see `EveryStringEncodes`).
- Security.SecurityValidator.CheckRateLimit: `time.time()` is an integer parameter. The limiter has no locking, and concurrent calls are not modelled.
- Configuration: environment-variable parsing is left out; the defaults are constants. `TEMPERATURE`, a float, is not modelled. `DatabaseConfig.ensure_directory_exists`, `DEBUG`, `LOG_LEVEL`, `HOST` and `PORT` are not modelled.
- Assistant: the constructor's language-model, prompt and chain set-up are not modelled. Messages are opaque records.
- `get_conversation_history`: its `except` branch is not modelled.
- The embedding manager, the HTTP routes, the web UI and the command-line entry point are plumbing around library calls and are not part of this model.

## Findings

| source | as written | input that shows it | evidently intended | confidence | as-written member | corrected member |
|---|---|---|---|---|---|---|
| src/utils/file_processor.py:115 | `start = end - overlap` even when that does not move past the current start | chunk size 1000, overlap 200, content of 50 `a`, a newline, then 1000 `a`: the next start is -149 and the loop never ends | the next start moves forward: `end - overlap` when that advances, else `end` | high, not executed | FileProcessor.DefaultsStallOnEarlyNewline | FileProcessor.ChunkContentFixed |
| src/utils/security.py:117 | an absolute path is inside an allowed directory when its text starts with the directory's text | `/homework/a.py` is judged inside `/home` | the path is the allowed directory or lies below it | medium, not executed | Security.SiblingOfAllowedDirAdmitted | Security.ValidateFilePathFixed |
