# Motion detection over frame directories, with a coordinator/helper split

This project models the computational core of a small C program that
detects motion in a video that has been cut into numbered JPEG frames
(`frame_<i>.jpg`). For every frame whose predecessor also exists, the
program writes a binary mask `motion_frame_<i>.jpg`:

1. it takes the absolute difference of the two grayscale images, pixel by pixel;
2. it sets every pixel above 20 to 255 and every other pixel to 0.

The frames of a directory are split into contiguous ranges, one for each
CPU core, and each range is handled by a worker thread. In server mode the
program keeps the first half of the frames, `[0, total/2 - 1]`. It sends a
helper process, running client mode, the text request
`PROCESS <in> <out> <half> <total-1>`. The helper always connects to
127.0.0.1 (network_utils.c:109), so it runs on the same host as the
coordinator and sees the same frame files. The helper parses the request,
processes the range it was given and answers `COMPLETED`.

The model is written in Dafny, in six modules:

- `CText` (ctext.dfy): the C library behaviour the program relies on.
  - printf's `%d`.
  - sscanf's `%d` and `%s` conversions, including the white space they skip.
  - C strings ended by the first NUL.
  - snprintf's truncation to the buffer size.
- `ImageUtils` (image_utils.dfy): the two pixel kernels as in-place array
  methods, specified by sequence functions; and `get_cpu_cores`.
- `Partition` (partition.dfy): the thread ranges.
  - The division truncates toward zero, as in C.
  - The method fills the thread-data array.
  - Lemmas prove that the ranges cover the work and never overlap.
- `HandleMotion` (handle_motion.dfy): the per-range worker, the
  multi-thread driver and the frame-name counter.
  - The input directory is a map from frame index to grayscale frame.
    An index is in the map exactly when that frame loads.
  - The output directory is the map of saved masks.
- `NetworkUtils` (network_utils.dfy): the coordinator and the helper.
  - Request formatting and parsing, and the classification of the reply.
  - The coordinator's sequence of socket steps.
  - The helper's prompt-and-retry loop, run over a script of operator
    input and network outcomes.
- `ServerMode` (server_mode.dfy): from main.c.
  - The coordinator/helper split and option 2 of the menu.
  - The accept rules of the prompts.

The main results:

- **The output does not depend on the thread count.** For every
  `numThreads >= 1`, `ProcessFramesWithThreads` saves exactly the masks of
  `[startFrame, totalFrames - 1]`. This is because the ranges cover that
  interval and are pairwise disjoint.
- **A mask is saved exactly when both frames load.** The mask for index `i`
  exists exactly when frames `i` and `i - 1` both load. Its value is the
  thresholded difference.
- **The request round-trips.** Formatting a request and parsing it back
  gives the task it was made from, provided that:
  - both paths are non-empty words with no white space;
  - the text fits the 1024-byte buffer.
- **The coordinator/helper run covers every frame once.** Both processes
  run on one host, so the model gives them one frame map. The coordinator's half
  and the helper's half are disjoint. Together they give the masks of every
  frame, and the coordinator recognises the helper's acknowledgment.

## Model

| member | source | states |
|---|---|---|
| ImageUtils.PixelDiff | image_utils.c:97 | the byte stored is exactly \|a − b\| of the promoted values, so it never wraps, and it is 0 exactly when the two pixels are equal |
| ImageUtils.ComputeDifference | image_utils.c:95-99 | entries 0 .. width·height−1 of output become the pixelwise difference of the inputs as they were on entry; later entries of output keep their values; an input that is not the output buffer is unchanged |
| ImageUtils.ApplyThreshold | image_utils.c:102-106 | entries 0 .. width·height−1 of output become 255 where the input exceeds the threshold and 0 otherwise; later entries keep their values; the input is unchanged unless it is the output |
| ImageUtils.DifferenceSymmetric | image_utils.c:97 | the difference does not depend on the order of the two images |
| ImageUtils.DifferenceZeroIffEqual | image_utils.c:97 | a difference pixel is 0 exactly where the two images agree |
| ImageUtils.DifferenceWithSelf | image_utils.c:97 | an image differenced with itself is all zeros |
| ImageUtils.ThresholdIsBinary | image_utils.c:104 | every thresholded pixel is 0 or 255 |
| ImageUtils.ThresholdIsStrict | image_utils.c:104 | a pixel becomes 255 exactly when it is above the threshold, so a pixel equal to the threshold becomes 0 |
| ImageUtils.ThresholdIdempotent | image_utils.c:104 | thresholding a thresholded buffer again with the same t < 255 changes nothing |
| ImageUtils.ThresholdAtMaximumClears | image_utils.c:104 | with threshold 255 no pixel passes the strict test |
| ImageUtils.CpuCores | image_utils.c:109-116 | the core count comes back exactly when it is at least 1; otherwise the program exits |
| Partition.TruncDiv | handle_motion.c:78 | C's quotient truncated toward zero: for a non-negative dividend q·b ≤ a < q·b + b, for a negative one q·b − b < a ≤ q·b ≤ 0 |
| Partition.AssignRanges | handle_motion.c:80-82 | entry i of the thread-data array gets start startFrame + i·fpt and end startFrame + (i+1)·fpt − 1, or totalFrames − 1 for the last thread |
| Partition.PrefixCovered | handle_motion.c:78-82 | the first k < numThreads ranges together are exactly [startFrame, startFrame + k·fpt − 1] |
| Partition.PartitionCovers | handle_motion.c:78-82 | all ranges together are exactly [startFrame, totalFrames − 1], for every numThreads ≥ 1 (both are empty when totalFrames < startFrame) |
| Partition.PartitionDisjoint | handle_motion.c:78-82 | the ranges of two different threads share no index |
| Partition.RangesAdjacent | handle_motion.c:81-82 | thread i's end plus 1 is thread i+1's start |
| Partition.EveryFrameOnce | handle_motion.c:78-82 | every index of [startFrame, totalFrames − 1] belongs to exactly one thread |
| Partition.LastRangeAbsorbsRemainder | handle_motion.c:78-82 | with totalFrames ≥ startFrame each non-last thread gets fpt = (total − start) / n frames and the last gets fpt + (total − start) mod n |
| Partition.FewerFramesThanThreads | handle_motion.c:78-82 | with fewer frames than threads every non-last range is empty and the last range holds all frames |
| Partition.TenFramesOnFourThreads | handle_motion.c:78-82 | 10 frames on 4 threads give [0,1], [2,3], [4,5], [6,9] |
| Partition.FailedCountGivesEmptyRanges | handle_motion.c:78-82 | with total −1 and start 0, fpt is −1 on one thread and 0 on more, and every range is empty |
| HandleMotion.LoadGray | handle_motion.c:32-38 | a fresh buffer holding the frame's grayscale pixels |
| HandleMotion.CompareFrames | handle_motion.c:47-56 | the motion buffer is the difference of the previous and current gray images, thresholded at 20, over the previous frame's size; the current buffer is left as it was |
| HandleMotion.ProcessFrameBatch | handle_motion.c:23-70 | over [start, end], a mask is saved for index i exactly when frames i and i − 1 both load, and it is MotionMask of the two; nothing else is saved; its log has one report per index, start to end in increasing order (BatchLog) |
| HandleMotion.EventFor | handle_motion.c:32-59 | the report for index i is a skip exactly when frame i does not load, and a written mask exactly when frames i and i − 1 both load |
| HandleMotion.BatchLog | handle_motion.c:27-68 | the reports of a batch over [lo, hi] number hi − lo + 1 (none when hi < lo), and report k is about index lo + k |
| HandleMotion.LogAgreesWithMasks | handle_motion.c:44-59 | a batch's log reports a written mask for exactly the indices whose mask is saved |
| HandleMotion.MasksExtend | handle_motion.c:27-58 | one more index adds its mask exactly when it and its predecessor load, and leaves the other masks alone |
| HandleMotion.ProcessFramesWithThreads | handle_motion.c:73-93 | the saved masks are exactly those of [startFrame, totalFrames − 1], whatever numThreads ≥ 1 is |
| HandleMotion.MasksUnion | handle_motion.c:85-92 | the masks of two index sets together are the masks of their union |
| HandleMotion.MasksOfNextThread | handle_motion.c:85-92 | adding thread i's masks to those of threads 0 .. i−1 gives those of threads 0 .. i |
| HandleMotion.MasksOfAllThreads | handle_motion.c:78-92 | the masks of all threads' ranges together are the masks of [startFrame, totalFrames − 1] |
| HandleMotion.FirstFrameHasNoMask | handle_motion.c:41-47 | frame 0 never gets a mask when indices start at 0 |
| HandleMotion.MissingFrameLosesTwoMasks | handle_motion.c:32-47 | a frame that does not load loses its own mask and its successor's (the "using current frame as reference" branch writes nothing) |
| HandleMotion.MasksAreBinary | handle_motion.c:52-58 | every saved mask has the frame's pixel count and holds only 0 and 255 |
| HandleMotion.TenFramesGiveNineMasks | handle_motion.c:27-58 | ten loading frames 0..9 give masks for exactly 1..9 |
| HandleMotion.MissingFrameThreeOfFive | handle_motion.c:32-47 | frames 0, 1, 2, 4 give masks for exactly 1 and 2 |
| HandleMotion.FrameNameMatches | handle_motion.c:105 | `frame_<i>.jpg` matches ^frame_[0-9]+\.jpg$ exactly when i ≥ 0 |
| HandleMotion.FramePathInjective | handle_motion.c:28 | while a path is not cut at 255 characters, different frames have different paths |
| HandleMotion.FrameCount | handle_motion.c:96-118 | the count is −1 exactly when the directory does not open or the pattern does not compile, and is never below −1 |
| HandleMotion.CountFramesInDirectory | handle_motion.c:96-118 | the loop over the directory entries returns FrameCount: −1 on either failure, otherwise the number of entries whose names match the pattern |
| CText.IntToDec | network_utils.c:65 | printf's %d text is non-empty, starts with '-' exactly for a negative value, and has no white space or NUL |
| CText.DigitsValueOfNatToDec | network_utils.c:133 | the digits printf writes for n have the value n |
| CText.ScanIntOfDec | network_utils.c:133 | %d reads back exactly the value printf's %d wrote, leaving the text after it |
| CText.ScanTokenOfWord | network_utils.c:133 | %s reads back a word that is followed by white space or the end of the text |
| CText.IntToDecInjective | network_utils.c:65 | two different values never get the same %d text |
| CText.CString | network_utils.c:72 | the C string of a buffer is its prefix before the first NUL, and it holds no NUL |
| CText.Truncate | network_utils.c:65 | snprintf keeps at most cap characters, a prefix of the text, and all of a text that fits |
| NetworkUtils.FormatRequest | network_utils.c:64-65 | the request is at most 1023 characters, a prefix of `PROCESS <in> <out> <start> <end>`, and all of it when it fits |
| NetworkUtils.ScanRequest | network_utils.c:133 | sscanf assigns the fields in order and stops at the first that fails |
| NetworkUtils.ScanRequestOfFields | network_utils.c:133 | after the literal PROCESS, four conversions that succeed in turn assign all four fields |
| NetworkUtils.RequestRoundTrip | network_utils.c:133 | when both paths are words and the text fits, the request is its own C string and parses back to the same two paths and frame numbers, whatever the uninitialised variables held |
| NetworkUtils.NoNulInRequest | network_utils.c:65-66 | a request built from words has no NUL, so send's strlen takes all of it |
| NetworkUtils.AcknowledgmentRecognised | network_utils.c:70-76 | a reply is success exactly when its C string is COMPLETED; COMPLETED itself is, and so is COMPLETED followed by a NUL and anything |
| NetworkUtils.ReplyClasses | network_utils.c:70-79 | a reply is a failure exactly when the read gave no bytes, success when its C string is COMPLETED, and otherwise unexpected, logged as its C string |
| NetworkUtils.CStringStopsAtNul | network_utils.c:72 | strcmp sees only the text before the first NUL |
| NetworkUtils.SocketFailureMisreported | network_utils.c:29-39 | a socket() that returns −1 passes the `== 0` test and the program exits at setsockopt; with the intended test it exits at the socket step |
| NetworkUtils.StartServerAsWritten | network_utils.c:24-83 | start_server as written: a socket() result of 0 exits at the socket step, a negative one exits at the setsockopt step, and any result above 0 behaves as the corrected StartServer |
| NetworkUtils.StartServer | network_utils.c:24-83 | the corrected start_server, whose socket test treats a negative result as failure: it exits at the socket step exactly when socket() fails; it finishes exactly when socket, setsockopt, bind, listen and accept all succeed, and it then sends the formatted request and classifies the reply |
| NetworkUtils.StartClient | network_utils.c:86-147 | the loop ends as ClientRun says: home, the first session that opens (processing end + 1 from start and answering COMPLETED); a script with neither ends in InputEnded, which stands for the source prompting forever |
| NetworkUtils.FirstDecisiveEntrySettles | network_utils.c:90-145 | every entry before the first `home` or opening session only re-prompts, and that entry settles the outcome |
| NetworkUtils.NoDecisiveEntryNeverEnds | network_utils.c:90-128 | without `home` or an opening session the loop never settles: every entry re-prompts and the run reaches InputEnded, the model's stand-in for prompting forever |
| NetworkUtils.ServedSessionAcknowledges | network_utils.c:138-141 | a served session processes exactly [start, end] of the task it parsed, and answers COMPLETED, which the coordinator takes as success |
| ServerMode.SplitPoint | main.c:144 | half = total / 2 satisfies 2·half ≤ total ≤ 2·half + 1 |
| ServerMode.SplitCoversAll | main.c:144-148 | [0, half − 1] and [half, total − 1] are disjoint and together are [0, total − 1] |
| ServerMode.SplitMasksAll | main.c:144-148 | the masks of the two halves together are the masks of every frame |
| ServerMode.TenFramesSplit | main.c:144-148 | ten frames give half 5 and the request `PROCESS frames motion 5 9` |
| ServerMode.StartServerMode | main.c:138-150 | nothing happens when the count is ≤ 0; otherwise [0, half − 1] is processed here, and start_server as written (StartServerAsWritten) is run for [half, total − 1] |
| ServerMode.TwoNodeSession | main.c:144-148 | when the coordinator's setup succeeds (socket() above 0, as the as-written test needs) and the helper's first decisive entry receives its request, the helper processes exactly [half, total − 1], both halves together give every mask, and the acknowledgment is recognised |
| ServerMode.DetectMotion | main.c:210-211 | option 2 saves the masks of [0, count − 1]; a count of −1 goes through unchecked and saves nothing |
| ServerMode.PositiveIntReply | main.c:110-115 | `home` gives 0; a token whose %d conversion succeeds with a value above 0 gives that value; any other token asks again |
| ServerMode.PositiveIntOfDec | main.c:113 | a number as printf writes it is accepted exactly when it is positive, with that value |
| ServerMode.ResolutionReply | main.c:125-131 | `home` returns 0; a token that contains an `x` is accepted; any other token asks again |
| ServerMode.ValidateOrCreateDirectory | main.c:159-177 | it gives 0 exactly for `home`, 1 for an existing directory or one that mkdir creates, and −1 for a path that is not a directory or cannot be created |

## Left out

- Decoding and encoding JPEG (load_jpeg, save_jpeg) are not modelled.
  - A frame that loads is an entry of the frame map.
  - A saved mask is an entry of the output map, keyed by frame index.
- The float luma weights of rgb_to_grayscale (image_utils.c:85-92) are not modelled. Frames are given already in grayscale.
- Threads: pthread_create and pthread_join are replaced by running the workers one after another, in thread order.
  - The ranges are disjoint (PartitionDisjoint), so the order does not show in the result.
  - The exit when pthread_create fails is not modelled.
- Sockets are not modelled as system calls.
  - Each socket call appears as its outcome (Setup, Attempt), and each read as the bytes it returned.
  - close() and the bytes that send() puts on the wire are not modelled.
- The helper's parsed paths are not modelled. The helper processes its own frame map, and the request only decides which range it processes.
- The text of the log messages process_frame_batch prints is not modelled; the model keeps one report per index (skipped, no reference frame, mask written).
- HandleMotion.ProcessFrameBatch: it requires that a frame and its predecessor have the same size (Consistent). The source does not check this. It takes the predecessor's size for the comparison, so it reads past the current frame's buffer only when the predecessor has more pixels; with the same or fewer pixels it saves a mask of the predecessor's size, which the model does not cover.
- load_jpeg skips a frame only when fopen fails. A file that opens but does not decode ends the whole program through libjpeg's default error_exit, installed by jpeg_std_error (image_utils.c:29). The frame map cannot show this: a frame is either in it (loads) or not (skipped).
- NetworkUtils.StartClient: the operator's input is a finite script, and a script that runs out ends in InputEnded. The source has no such exit: it ignores scanf's return value at end of input (network_utils.c:93) and its while(1) loop keeps prompting.
- HandleMotion.FramePath: paths cut at 255 characters could make two frames share a file. The frame and output maps are keyed by index, so such collisions are not modelled; FramePathInjective covers paths that are not cut. The output path `motion_frame_<i>.jpg` is not modelled beyond that key.
- CText.ScanInt: int is 32 bits in the source, but frame numbers and %d values are unbounded here. A %d conversion that overflows, and `end_frame + 1` at INT_MAX, are not modelled.
- The fixed-size C buffers can overflow, and this is not modelled:
  - the 16-byte and 32-byte prompt buffers;
  - the MAX_PATH path buffers of the helper, filled by %s;
  - the reply buffer when a read fills all 1024 bytes with no NUL.

  Texts are taken as the C strings the buffers would hold.
- ServerMode.StartServerMode and ServerMode.DetectMotion: the directory listing and the frame map are independent parameters. The model does not tie the counted names to the frames that load.
- The interactive menus are not modelled. This covers:
  - the prompt loops themselves (only their accept rules are modelled);
  - prompt_file, prompt_directory, build_full_path, clear_buffer and show_menu;
  - the menu loop of main;
  - option 1 (vid_to_jpg, OpenCV) and option 3 (convert_to_video, ffmpeg).
- get_cpu_cores returns a long that is cast to int; that cast is not modelled. sysconf's value is a parameter.

## Findings

| source | as written | input that shows it | evidently intended | confidence | as-written member | corrected member |
|---|---|---|---|---|---|---|
| network_utils.c:29 | socket() is treated as failed only when it returns 0 | socket() fails and returns −1: the test passes, setsockopt fails on the bad descriptor, and the program exits reporting a setsockopt failure | a negative return (−1) is the failure, as the client checks at network_utils.c:102 | high (not executed) | NetworkUtils.StartServerAsWritten, NetworkUtils.SocketFailureMisreported | NetworkUtils.StartServer |
