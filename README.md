# SignageGenerator project metadata store, in Dafny

SignageGenerator is an Electron desktop tool for putting together an image
slideshow. The user opens a project folder, drops images into it, drags them
into order, and marks each one "always show" or gives it a start and an end
time. The main process (`main.js`) keeps this metadata in a sidecar file
`images.xml` in the project folder. Despite its name, the file holds a JSON
array of records `{name, alwaysShow, start, end}`, keyed by the image's file
name. This project models that store and the IPC handlers that read and
rewrite it, and proves what they do.

- `optional.dfy`: `Option`. It stands for JSON `null`, an absent sidecar and
  an unset module variable.
- `records.dfy` (module `ImageRecords`): records and patches.
  - `FindIndex` is `findIndex`.
  - `Merge` is the object spread `{...record, ...rest}`.
  - `Upsert` is the sequence `updateXML` writes back.
  - `Reconcile` and `WithoutName` are the filters of `load-images` and
    `delete-image`.
  - Lemmas: order is kept (`IsSubsequence`), names stay distinct, idempotence.
- `ordering.dfy` (module `Ordering`): the sort of `update-order`.
  - `Array.prototype.sort` runs with the comparator
    `newOrder.indexOf(a.name) - newOrder.indexOf(b.name)`. It is stable, so
    its result is the unique stable sort by the key `indexOf(name)`.
  - `SortByKey` writes that sort as an insertion sort.
  - Lemmas: the result is a permutation, sorted, and stable per key. Unlisted
    records come first. A complete list is reproduced exactly.
- `store.dfy` (module `ProjectStore`): class `MainProcess`.
  - Its fields are the module variables `projectFolder` and `deleteFileName`,
    the set of file names in the folder, and the sidecar (`None` while the
    file does not exist).
  - Each handler is a method. Its `ensures` give the new state in terms of
    the functions above. Messages sent back to the window are
    out-parameters.
  - Every IPC handler keeps two properties: names are distinct
    (`Distinct`), and every record has its file in the folder (`Synced`).
    `update-image` keeps `Synced` only for a name that is in the folder.
    `load-images` re-establishes `Synced`. Opening a project
    (`SelectProject`) is not an IPC handler: it takes the folder as it is,
    so neither property need hold right after it.

Abstracted:
- The file system is the `files` set and the `sidecar` field.
- Whether `fs.copyFile` succeeds is the `copyOk` parameter of `FileDropped`.
- The folder chosen in the "Neues Projekt" dialog, with its content, is the
  input of `SelectProject`.
- `path.basename` is applied before the call: `FileDropped` receives the base
  name.

Behaviours worth knowing:
- The sidecar is `images.xml` and holds JSON.
- In `update-order`, a record whose name is missing from the list gets key -1
  and goes to the front, in original order.
- `load-images` without a sidecar replies nothing.

`update-image`, `load-images` and `update-order` never check `projectFolder`.
Without one, `path.join` throws before anything happens. These methods
therefore require a chosen project. In the source, `deleteFileName` is an
undeclared global, and a "yes" before any dialog throws a ReferenceError. That
leaves the same state as the model's "nothing pending, nothing deleted".

## Model

| member | source | states |
|---|---|---|
| ImageRecords.FindIndex | main.js:216 | -1 exactly when no record has the name; otherwise the index of a record with that name, and no earlier record has it |
| ImageRecords.Merge | main.js:218-219 | the key stays the same; each field the patch carries takes the patch's value; each field it leaves out keeps the record's value |
| ImageRecords.Upsert | main.js:209-224 | new name: exactly one default record `{name, true, null, null}` appended, earlier records unchanged, any patch ignored; known name without patch: unchanged (no duplicate on re-drop); known name with patch: same length, only the first match merged; the name is present afterwards; distinct names stay distinct |
| ImageRecords.UpsertThenPatch | main.js:216-222 | dropping a new file and then unticking "always show" yields the old records plus exactly one record `{name, false, null, null}` |
| ImageRecords.Reconcile | main.js:114-122 | a record survives iff it was stored and its file exists; never longer; same length iff every file exists |
| ImageRecords.ReconcileCounts | main.js:114-122 | each record whose file exists survives exactly as many times as it was stored, every other record zero times; with the subsequence lemma this fixes the result, duplicates included |
| ImageRecords.ReconcileIsSubsequence | main.js:114-122 | the survivors keep their original order |
| ImageRecords.ReconcileKeepsAll | main.js:114-122 | when every file is present the records come back unchanged |
| ImageRecords.ReconcileIdempotent | main.js:108-127 | loading a reconciled store again changes nothing |
| ImageRecords.ReconcileKeepsDistinct | main.js:114-122 | distinct names stay distinct |
| ImageRecords.WithoutName | main.js:155-157 | no record of the name is left; every other record stays; the length is unchanged iff no record had the name, and then the sequence is unchanged |
| ImageRecords.WithoutNameCounts | main.js:156 | each record of another name stays exactly as many times as it was stored; records of the deleted name zero times |
| ImageRecords.WithoutNameIsSubsequence | main.js:156 | the remaining records keep their original order |
| ImageRecords.WithoutNameIdempotent | main.js:156 | deleting twice leaves what deleting once left |
| ImageRecords.WithoutNameKeepsDistinct | main.js:156 | distinct names stay distinct |
| Ordering.IndexOf | main.js:138 | -1 exactly when the name is not in the list; otherwise a position holding the name, with no earlier occurrence |
| Ordering.Insert | main.js:138 | one longer, and holds the old records plus the inserted one (multiset) |
| Ordering.SortByKey | main.js:138 | the sorted records are a permutation of the stored ones: same length, same multiset |
| Ordering.SortByKeySorted | main.js:138 | the keys `newOrder.indexOf(name)` never decrease along the result |
| Ordering.SortByKeyStable | main.js:138 | for every key, the records with that key keep their original relative order |
| Ordering.SortPutsUnlistedFirst | main.js:138 | records missing from the list (key -1) come before every listed record, in original relative order |
| Ordering.SortByKeyKeepsDistinct | main.js:138 | distinct names stay distinct |
| Ordering.SortFollowsCompleteOrder | main.js:133-141 | when the list names every stored record once, the result's names are exactly the list |
| ProjectStore.MainProcess.constructor | main.js:5-6 | no project, no pending delete, no folder content |
| ProjectStore.MainProcess.SelectProject | main.js:28-34 | the chosen folder becomes the project, seen with its own files and sidecar; the pending delete stays |
| ProjectStore.MainProcess.UpdateXml | main.js:209-224 | the sidecar exists afterwards and holds `Upsert` of what it held (none if absent); nothing else changes |
| ProjectStore.MainProcess.FileDropped | main.js:93-106 | without a project or when the copy fails, nothing changes and nothing is replied; otherwise the file joins the folder, the sidecar is upserted without patch, the file's name is replied; Synced and Distinct are kept |
| ProjectStore.MainProcess.UpdateImage | main.js:129-131 | the sidecar holds the records upserted with the patch; Distinct is kept, and Synced too when the name is in the folder |
| ProjectStore.MainProcess.LoadImages | main.js:108-127 | absent sidecar: nothing written, nothing replied; present: it is rewritten as `Reconcile` and exactly those records are replied; afterwards Synced holds; Distinct is kept |
| ProjectStore.MainProcess.UpdateOrder | main.js:133-141 | absent sidecar: nothing changes; present: it is rewritten as `SortByKey` of its records, a permutation; Synced and Distinct are kept |
| ProjectStore.MainProcess.DeleteImage | main.js:143-165 | without a project, nothing; otherwise the file is gone, the window is told iff the file existed, the sidecar holds `WithoutName` of its records and is rewritten iff a record had the name, no record of the name remains; Synced and Distinct are kept |
| ProjectStore.MainProcess.ShowConfirmDialog | main.js:182-183 | the name becomes the pending delete |
| ProjectStore.MainProcess.ConfirmDialogResponse | main.js:198-207 | the file and its records are deleted iff the answer is yes and a non-empty name is pending (and a project is open); the pending name is cleared in every case |

## Left out

- Window, menu and dialog creation, the app lifecycle, `open-image`, and
  closing the confirm window (main.js:8-91, 167-180, 184-195, 203-206). This
  is user-interface plumbing with no effect on the store.
- The IPC transport (`ipcMain.on`, `event.reply`, `webContents.send`,
  `ipcMain.emit`). Each handler is a method call; replies are out-parameters.
- The asynchrony of `fs.copyFile`. The model applies its callback at once, so
  other handlers running between the copy and its callback are not modelled.
- File-system failures:
  - a failed `readFileSync`, `writeFileSync` or `unlinkSync`;
  - `JSON.parse` on malformed sidecar content.
  The sidecar is an already-parsed record sequence. Serialisation
  (`JSON.stringify`) and the written file's formatting are not modelled.
- `path.join`, `path.basename` and the folder's real path. The folder is the
  set of base names it holds. An image whose name is `images.xml` itself
  would collide with the sidecar; the model keeps the two apart.
- File-name matching in the folder. `files` compares names exactly, but
  `fs.existsSync` and `fs.unlinkSync` on the case-insensitive default file
  systems of macOS and Windows treat "A.jpg" and "a.jpg" as one file, and
  macOS also normalises Unicode. There a record "A.jpg" survives
  `load-images` next to a file "a.jpg", and a drop of "A.jpg" next to "a.jpg"
  overwrites one file but appends a second record. The model treats such
  names as two different files.
- The payload of the `file-copied` reply. The source sends the joined
  destination path; `FileDropped` replies the base name, since paths are not
  modelled.
- Logging: `console.log` for each record dropped by `load-images` and
  `console.error` on a failed copy or folder dialog. They change no state.
- Record fields other than the four, which the object spread would carry
  along. Patches carrying keys other than `alwaysShow`, `start` and `end`:
  the window never sends any, so a patch can never overwrite `name`.
- The date-time format of `start` and `end`. The code never checks it; they
  are opaque strings.
- `renderer.js`, `confirm-dialog.js` and `image-viewer.js`: DOM rendering,
  drag-and-drop and event forwarding, including the file-name extraction
  `split(...).pop()`.
- ProjectStore.MainProcess.UpdateImage, LoadImages, UpdateOrder: without a
  project the source throws inside `path.join`. These methods require a
  chosen project instead of modelling that exception.
