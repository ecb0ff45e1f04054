# gtef core in Dafny

This project models four parts of gtef, a GTK text-editing framework, and proves properties of them.

- **The file loader** (`GtefFileLoader`). It loads one location into a `GtefBuffer`, one load at a time. A load queries the file size and checks it against a maximum. If the volume is not mounted, it mounts once and queries again. It then opens the file and reads it in chunks into a queue, counting the bytes. It detects the charset over the whole queue and converts the queue into the buffer chunk by chunk. When the buffer asks for it, one trailing line terminator is removed. `load_finish` hands back the result and clears the task.
- **The action-info store** (`GtefActionInfoStore`). It is an add-only table from action name to `GtefActionInfo`. Every info it accepts is also handed to the central store. Creating a menu item marks its info as used, and the store can report the infos never used.
- **The central store** (`GtefActionInfoCentralStore`). It is a singleton, add-only table that collects the infos of every store, so action names are unique program-wide.
- **Candidate encodings** (`gtef-settings.c`). This is the list of encodings a load tries, built from a GSettings string vector.

Modules:

- `Wrappers`: `Option`, used wherever the C code has a nullable pointer.
- `LoaderSpec`: the pure definitions behind the loader:
  - the byte queue and its accounting;
  - the read size and the size ceiling;
  - charset detection, with uchardet as a function parameter;
  - per-chunk conversion, with the converter as a parameter: opening can fail, and each chunk gives a fragment or an error;
  - the outcome of convert-and-insert;
  - trailing-newline removal.
- `FileLoader`: class `Loader`. Its fields mirror `GtefFileLoaderPrivate`, `TaskData` and the buffer (its text, cursor and modified flag). Each GIO completion callback is a method that takes the I/O outcome as a parameter. The field `pending` records which GIO operation is outstanding, and each callback requires its own operation to be pending. The weak references to the buffer and the file are alive flags.
- `ActionInfos`: class `ActionInfo` (with its `used` flag) and `ActionInfoEntry`. It also holds the map facts both stores use: add-only growth, and what adding a sequence of infos in order gives.
- `ActionInfoCentralStore`: class `CentralStore`, plus `Globals`, which holds the static `instance` of `get_instance`.
- `ActionInfoStore`: class `Store`.
- `Settings`: `StrvIsEmpty`, `EncodingStrvToList` (a loop against the specification function `SettingEncodings`) and `GetCandidateEncodings`.

The model follows the code in three places:

- `set_chunk_size` does not check for a load in progress, unlike `set_max_size`, so a chunk size may change during a load.
- Each `g_return_if_fail` and `g_warning` path is a returned flag or outcome, and the state is left unchanged.
- The C code compares encodings by pointer. The model compares them by equality of the type parameter.

## Model

| member | source | states |
|---|---|---|
| LoaderSpec.ConcatLength | gtef/gtef-file-loader.c:726-736 | the bytes the detector is fed number exactly the bytes counted for the queue |
| LoaderSpec.PushTail | gtef/gtef-file-loader.c:794-795 | pushing a non-empty chunk at the tail keeps every chunk non-empty and adds its size to the count |
| LoaderSpec.NonEmptyChunksLength | gtef/gtef-file-loader.c:688 | a queue of non-empty chunks holds at least one byte per chunk, and has zero bytes exactly when it is empty |
| LoaderSpec.ReadRequestSize | gtef/gtef-file-loader.c:836-837 | a read asks for at least 1 byte and at least chunk_size bytes, and for exactly chunk_size when it is positive |
| LoaderSpec.TooBigFor | gtef/gtef-file-loader.c:984-985 | the size ceiling test: a size is too big exactly when the maximum is non-negative and the size exceeds it, so -1 means unlimited; GetFileSizeCb uses it for TOO_BIG |
| LoaderSpec.DetectedCharset | gtef/gtef-file-loader.c:740-745 | a non-empty answer of the detector on all queued bytes always replaces the previous charset; a charset that differs from the previous one is such an answer; with no previous charset, one is kept exactly when the detector gives a non-empty name |
| LoaderSpec.ConvertChunks | gtef/gtef-file-loader.c:681-702 | the conversion loop as a function: chunks are taken from the head, their fragments joined in queue order, and the first error stops it after its chunk was taken; the result is the text, the chunks left and the error (its properties are the lemmas below) |
| LoaderSpec.ConvertChunksRest | gtef/gtef-file-loader.c:681-702 | without an error the loop drains the queue; an error leaves a strict suffix of it |
| LoaderSpec.ConvertAllSucceed | gtef/gtef-file-loader.c:681-702 | when every chunk converts, the text is all fragments in queue order and the queue is empty |
| LoaderSpec.ConvertFirstError | gtef/gtef-file-loader.c:681-702 | when chunk k is the first that fails, its error is reported, the fragments before it are kept and the chunks after it remain |
| LoaderSpec.InsertConverted | gtef/gtef-file-loader.c:697-708 | after the loop: an error ends the task with it and keeps the text inserted so far; otherwise the trailing newline is removed when asked and the task returns TRUE |
| LoaderSpec.ConvertAndInsertOutcome | gtef/gtef-file-loader.c:658-708 | the text, the queue left and the task value of convert_and_insert_contents: FALSE without a buffer, the open error with nothing changed, otherwise InsertConverted of the conversion (its properties are the lemmas below) |
| LoaderSpec.ConvertAndInsertOutcomeSpec | gtef/gtef-file-loader.c:658-708 | without a buffer the task returns FALSE and nothing changes; with one it never returns FALSE; an error keeps the old text as a prefix and leaves a suffix of the queue; TRUE drains the queue; an open error changes nothing |
| LoaderSpec.ConvertAndInsertAllConvert | gtef/gtef-file-loader.c:681-708 | when every chunk converts, the buffer gets the old text and all fragments in order, trimmed when the buffer asks, and the task returns TRUE |
| LoaderSpec.ConvertAndInsertFirstError | gtef/gtef-file-loader.c:690-701 | when chunk k is the first that fails, the load ends with its error, the earlier fragments stay in the buffer and the later chunks stay queued |
| LoaderSpec.DetermineEncodingOutcome | gtef/gtef-file-loader.c:740-758 | without a detected or previous charset the task fails with ENCODING_AUTO_DETECTION_FAILED and text and queue are untouched; otherwise the outcome of convert_and_insert_contents with that charset |
| LoaderSpec.TrimTrailingNewline | gtef/gtef-file-loader.c:187-203 | the text with its last line terminator deleted (CR LF as one) when it ends with a line break, otherwise the text itself; its properties are TrimTrailingNewlineSpec and AppendThenTrim |
| LoaderSpec.TrimTrailingNewlineSpec | gtef/gtef-file-loader.c:182-203 | the trim keeps a prefix; it removes something exactly when the text ends with a line break, and what it removes is one whole line terminator (CR LF counts as one) |
| LoaderSpec.AppendThenTrim | gtef/gtef-file-loader.c:188-203 | appending one terminator to a text and then trimming gives the text back |
| LoaderSpec.TrimExamples | gtef/gtef-file-loader.c:188-203 | "a\n" becomes "a", "a\n\n" becomes "a\n", "a\r\n" becomes "a", "\n" becomes "", and texts without a final break are unchanged |
| FileLoader.FeedDetector | gtef/gtef-file-loader.c:726-736 | the detector is fed every queued chunk, in queue order |
| FileLoader.Loader.constructor | gtef/gtef-file-loader.c:467-476 | a new loader has no task, a live buffer and file, and the default maximum size (50,000,000) and chunk size (32 KiB) of lines 94-95 |
| FileLoader.Loader.BufferDestroyed | gtef/gtef-file-loader.c:256-257 | the weak pointer to the buffer becomes NULL once the buffer is finalized |
| FileLoader.Loader.FileDestroyed | gtef/gtef-file-loader.c:263-264 | the weak pointer to the file becomes NULL once the file is finalized |
| FileLoader.Loader.SetMaxSize | gtef/gtef-file-loader.c:565-576 | values below -1 and calls during a load are refused; otherwise the value is stored, and a notification happens exactly when it differs from the old one |
| FileLoader.Loader.SetChunkSize | gtef/gtef-file-loader.c:610-619 | values below 1 are refused; otherwise the value is stored, and a notification happens exactly when it differs from the old one |
| FileLoader.Loader.ContentsConvertedCb | gtef/gtef-file-loader.c:623-642 | the fragment is appended at the end of the buffer and the cursor is put at the start |
| FileLoader.Loader.RemoveTrailingNewlineIfNeeded | gtef/gtef-file-loader.c:169-204 | the text is trimmed only when a buffer exists and asks for an implicit trailing newline; the cursor is pulled back inside the shorter text |
| FileLoader.Loader.PopHead | gtef/gtef-file-loader.c:685-688 | the chunk popped is the old head, the queue is its tail, and the chunk is non-empty |
| FileLoader.Loader.FeedChunk | gtef/gtef-file-loader.c:683-701 | one pass of the loop keeps the loop invariant and shortens the queue, or it stops with the whole conversion's error and the text so far |
| FileLoader.Loader.FeedQueue | gtef/gtef-file-loader.c:681-702 | the text becomes the old text followed by the converted fragments, the queue becomes what the conversion leaves and the error is its first error; without an error the queue is empty |
| FileLoader.Loader.ConvertAndInsert | gtef/gtef-file-loader.c:645-712 | text, queue and task value are those of the convert-and-insert outcome for the old buffer, old text and old queue; a cursor at the start stays there |
| FileLoader.Loader.DetermineEncoding | gtef/gtef-file-loader.c:715-759 | the charset becomes the detected one; without one the load fails with ENCODING_AUTO_DETECTION_FAILED and nothing is converted; otherwise the outcome is that of the conversion; a cursor at the start stays there |
| FileLoader.Loader.ReadNextChunk | gtef/gtef-file-loader.c:825-842 | a read of MAX (1, chunk_size) bytes is issued |
| FileLoader.Loader.ReportProgress | gtef/gtef-file-loader.c:804-821 | progress is reported only when a callback is set and the total size is positive; the total is first raised to the bytes read, so every report has bytes_read <= total_size |
| FileLoader.Loader.QueueChunk | gtef/gtef-file-loader.c:794-821 | the chunk goes at the tail and is counted, the next read is issued, and progress is reported under the conditions above |
| FileLoader.Loader.ReadNextChunkCb | gtef/gtef-file-loader.c:762-822 | a read error ends the load with it and leaves the queue, counters, progress, text, cursor and charset unchanged; zero bytes end reading and lead to detection and conversion; any other chunk is queued and counted with the text and cursor untouched, and the next read is issued |
| FileLoader.Loader.OpenFileCb | gtef/gtef-file-loader.c:845-867 | an open error ends the load with it; otherwise reading starts |
| FileLoader.Loader.OpenFile | gtef/gtef-file-loader.c:870-883 | the open of the location is issued |
| FileLoader.Loader.GetFileSize | gtef/gtef-file-loader.c:1009-1024 | the size query is issued |
| FileLoader.Loader.RecoverNotMounted | gtef/gtef-file-loader.c:918-942 | the mount attempt is recorded and the mount issued |
| FileLoader.Loader.MountCb | gtef/gtef-file-loader.c:886-915 | a mount error ends the load with it; otherwise the file, if alive, is marked mounted and the size query is issued again |
| FileLoader.Loader.GetFileSizeCb | gtef/gtef-file-loader.c:945-1006 | the first NOT_MOUNTED error starts the mount, and any later one or any other error ends the load with it; a known size is stored, and a size above a non-negative maximum ends the load with TOO_BIG before any open; otherwise the file is opened |
| FileLoader.Loader.StartLoading | gtef/gtef-file-loader.c:1027-1047 | without a buffer the task returns FALSE and the text is untouched; otherwise the buffer is emptied and the size query issued |
| FileLoader.Loader.LoadAsync | gtef/gtef-file-loader.c:1100-1137 | a load while one is active, or without a location, changes nothing; otherwise a task starts with fresh counters, an empty queue, no charset and no mount attempt |
| FileLoader.Loader.BeginTask | gtef/gtef-file-loader.c:1126-1134 | the task is active with its progress callback, zero counters, an empty queue, no charset and no mount attempt |
| FileLoader.Loader.ResetQueue | gtef/gtef-file-loader.c:119-128 | a new task's data has no bytes read, an empty queue, no charset and no mount attempt |
| FileLoader.Loader.LoadFinish | gtef/gtef-file-loader.c:1151-1173 | without a task the call fails and nothing changes; otherwise finish_loading (lines 1050-1071) puts the cursor at the start and marks the buffer unmodified (if alive), the task's boolean or error is returned, and the task is cleared so that a new load may start |
| ActionInfos.ActionInfo.FromEntry | gtef/gtef-action-info-store.c:314 | the info made for an entry carries the entry's name, icon, label and tooltip, has the entry's accelerator as its only one, and is not used |
| ActionInfos.ActionInfo.SetUsed | gtef/gtef-action-info-store.c:433 | the info is marked used |
| ActionInfos.FirstNamed | gtef/gtef-action-info-store.c:310-317 | every name of the entries has a first entry carrying it, and no earlier entry carries it |
| ActionInfos.StoreAdd | gtef/gtef-action-info-store.c:264-275 | one add to a table: an info whose name is not yet a key is filed under it, anything else leaves the table as it is |
| ActionInfos.AddAll | gtef/gtef-action-info-store.c:310-317 | the table after adding the infos one after the other, in order (its properties are AddAllMade) |
| ActionInfos.AddAllMade | gtef/gtef-action-info-store.c:310-317 | adding infos made from the entries, in order, keeps every old entry, adds exactly the entries' names, and files each new name with the info of its first entry |
| ActionInfoCentralStore.CentralStore.constructor | gtef/gtef-action-info-central-store.c:86-94 | a new central store is empty |
| ActionInfoCentralStore.CentralStore.Add | gtef/gtef-action-info-central-store.c:115-138 | an info without a name, or with a name already present, is refused and the table is unchanged; otherwise it is filed under its name and nothing else changes |
| ActionInfoCentralStore.CentralStore.Lookup | gtef/gtef-action-info-central-store.c:148-156 | the result is NULL exactly for a name never added, otherwise the info filed under it; names are compared by contents |
| ActionInfoCentralStore.Globals.constructor | gtef/gtef-action-info-central-store.c:105 | before the first call there is no instance |
| ActionInfoCentralStore.Globals.GetInstance | gtef/gtef-action-info-central-store.c:103-113 | the first call creates the instance, and every call returns the same one with its contents unchanged |
| ActionInfoStore.FirstUnnamed | gtef/gtef-action-info-store.c:310 | a NULL-terminated array has a first entry without a name, and every entry before it has one |
| ActionInfoStore.EntriesAccepted | gtef/gtef-action-info-store.c:307-308 | the guards of add_entries: n_entries is at least -1, and there is an array unless n_entries is 0; AddEntries is refused exactly when they fail |
| ActionInfoStore.Taken | gtef/gtef-action-info-store.c:307-310 | add_entries walks exactly n_entries entries, or with -1 only named entries |
| ActionInfoStore.TakenGuard | gtef/gtef-action-info-store.c:310 | the loop guard holds exactly while entries remain to be walked, and the entry it reads is the one walked next |
| ActionInfoStore.Store.constructor | gtef/gtef-action-info-store.c:194-222 | a new store is empty and has the given application |
| ActionInfoStore.Store.SetApplication | gtef/gtef-action-info-store.c:79-96 | only a store without an application accepts one; NULL leaves it unset; otherwise it is stored and notified |
| ActionInfoStore.Store.Add | gtef/gtef-action-info-store.c:252-279 | a duplicate or unnamed info is refused with neither store changed; otherwise it is filed under its name, and the central store receives it unless it already has that name; both stores only grow |
| ActionInfoStore.Store.AddEntry | gtef/gtef-action-info-store.c:312-316 | an info is made from the entry and offered to both stores: each becomes StoreAdd of its old table and that info |
| ActionInfoStore.Store.AddEntries | gtef/gtef-action-info-store.c:299-318 | n_entries below -1, or no array with a non-zero count, is refused and neither store changes; otherwise the store and the central store each gain exactly the names of the entries walked that they lacked, each new name with the info made from its first entry, and both only grow |
| ActionInfoStore.Store.AddEntryAt | gtef/gtef-action-info-store.c:310-317 | one pass of the loop keeps its invariant: infos made from the first i entries have been added, in order, to the store and to the central store |
| ActionInfoStore.Store.AddTaken | gtef/gtef-action-info-store.c:310-317 | the loop makes one info from each entry walked; the store and the central store each become AddAll of their old table and those infos, in order |
| ActionInfoStore.Store.Lookup | gtef/gtef-action-info-store.c:328-336 | the result is NULL exactly for a name not in the store, otherwise the info filed under it |
| ActionInfoStore.MenuItemFor | gtef/gtef-action-info-store.c:384-424 | the menu item's action name, label, icon, tooltip and first accelerator, taken from the info |
| ActionInfoStore.Store.CreateMenuItem | gtef/gtef-action-info-store.c:373-433 | an unknown name gives no item and marks nothing; a known one gives the item built from its info (label, icon, tooltip, first accelerator), marks that info used, and binds the accelerators exactly when an application is set |
| ActionInfoStore.Store.CheckAllUsed | gtef/gtef-action-info-store.c:438-475 | the names warned about are exactly those whose info is not used |
| Settings.StrvIsEmpty | gtef/gtef-settings.c:24-37 | true exactly for NULL, no strings, or one empty string |
| Settings.SettingEncodings | gtef/gtef-settings.c:46-62 | the list has no duplicates; it holds only encodings some charset maps to, and every one that some charset maps to |
| Settings.SettingEncodingsPrefix | gtef/gtef-settings.c:49-59 | the list for a prefix of the setting is a prefix of the list, so encodings keep first-occurrence order |
| Settings.SettingEncodingsSkipsUnknown | gtef/gtef-settings.c:54-58 | charsets that name no known encoding are ignored |
| Settings.Reverse | gtef/gtef-settings.c:61 | the reversed list has the same length, with element i taken from position length-1-i |
| Settings.EncodingStrvToList | gtef/gtef-settings.c:46-62 | the prepend-then-reverse loop gives exactly the specified list |
| Settings.GetCandidateEncodings | gtef/gtef-settings.c:86-117 | an empty setting gives the defaults and default_candidates TRUE; otherwise default_candidates is FALSE, the locale encoding and UTF-8 are present, the locale encoding is first if the list lacked it, there are no duplicates, and the setting's list is a suffix after at most two prepended encodings, each UTF-8 or the locale one |

## Left out

- The GIO asynchronous calls (query info, mount, read, read bytes) and GTask internals. Their outcomes are method parameters. Scheduling, I/O priority and cancellation are not modelled; cancellation is only passed through to GIO.
- uchardet's statistical detection. It is a function from all the queued bytes to an optional charset name.
- The encoding converter (`gtef-encoding-converter.c` is not part of this model). It is a function from one chunk to one fragment or an error. A failing chunk emits no text, and closing the converter emits nothing.
- The model does not state that the decoded text is independent of how the bytes were split into chunks; that depends on the converter.
- FileLoader.Loader: the buffer's modified flag is only tracked where the loader sets it, at finish. Emptying the buffer and inserting text, which set it in GTK, leave it as it was in the model.
- FileLoader.Loader: the buffer's implicit-trailing-newline property is a constant fixed when the loader is made. In GtkSourceBuffer it can be changed at any time, and `remove_trailing_newline_if_needed` reads its current value.
- GtkTextBuffer and GtkSourceBuffer internals: iterators, undo grouping and user actions are not modelled. The buffer is its text, a cursor offset and a modified flag. Line terminators are LF, CR, CR LF and U+2029.
- GObject properties, signals and type boilerplate. A property notification is a returned flag.
- Weak references. Those of the loader are alive flags that `BufferDestroyed` and `FileDestroyed` clear.
- ActionInfoStore.Store: the weak reference to the application is a plain field. The model has no destruction event that clears it, so `app` never becomes null after it is set.
- The mount-operation factory of the file (`_gtef_file_create_mount_operation`).
- `g_format_size`, gettext and the warning texts.
- FileLoader.Loader: the 64-bit counters `total_bytes_read` and `total_size` are unbounded integers, because a loaded file stays far below 2^63 bytes. The progress callback is a list of the reports it receives.
- ActionInfos.ActionInfo.FromEntry: translation of the label and tooltip through the gettext domain is not modelled. `gtef-action-info.c` is not part of this model, so the info copies the entry's fields.
- ActionInfoStore.Store.CreateMenuItem: menu-widget construction, accelerator parsing and `gtk_application_set_accels_for_action` are not modelled. The call on the application is the returned flag `boundToApp`.
- ActionInfoStore.Store.AddEntries: the contract states which names are added and from which entry. It does not state that the new infos are fresh objects, or that they start unused.
- ActionInfoStore.Store.Registered: every name of a store is in the central store only while all stores share one `Globals`. The program's single static instance is not enforced by the model.
- Settings.GetCandidateEncodings: the NULL `default_candidates` out-pointer is not modelled, because the flag is always returned. The GSettings lookup, the locale encoding and the default candidates are parameters.
- `gtef-application.c`: a thin get-or-create wrapper over object data.
- The headers: they hold declarations only.
- The test suite: it exercises the file saver.
