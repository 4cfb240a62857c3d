# Face attendance: enrollment and matching, modelled in Dafny

`face_attendance.py` enrolls students from photos named `<name>_<id>.<ext>`.
- Training keeps one face encoding and one `{name, id}` record for each photo that has a valid name and shows exactly one face.
- It records a reason for every other photo.

To take attendance, the script starts with every enrolled id marked Absent. For each face found in a classroom image, it takes the closest stored encoding; the earliest one wins a tie. If that distance is within the tolerance 0.55, the matching id becomes Present. The table is then appended to the day's CSV log, with a header row first when the file is new.

The model has four modules:

- `Wrappers` (`wrappers.dfy`) is the `Option` type.
- `Filenames` (`filenames.dfy`) covers `validate_filename`. It includes a model of POSIX `os.path.splitext`, ASCII `str.lower`, `str.count`, and `str.split('_')` for a stem with exactly one underscore. It is written as pure functions and lemmas.
- `Training` (`training.dfy`) covers `train_model`. It has:
  - a per-file verdict, `Assess`;
  - a fold over the directory listing, `Train`, which is an instance of the generic `Tally`;
  - the imperative loop `TrainModel`, proved equal to that fold.
- `Attendance` (`attendance.dfy`) covers `mark_attendance`:
  - The Python dict is a `Table`: its keys in insertion order, plus a map. `Put` is `__setitem__`: a new key goes last, and an existing key keeps its place.
  - `Roster` builds the initial table, and `BestMatch`/`MatchedIds` model the matching.
  - `Marked` is the table after matching.
  - `WriteLog` is the row-writing loop over a `LogFile(onDisk, rows)`.
  - `MarkAttendance` is the whole run, with a loop over the faces that updates the table in place.

The face library is an input everywhere:
- `detect` gives, for each filename, the number of faces located and the encoding, or the message of an exception the library raised.
- `scan` gives the faces found in the classroom image, or `None` when loading the image raised.
- `distance` gives the distance between a stored encoding and a face.

The directory listing, the timestamp and whether the day's file exists are parameters.

The log gets one row per distinct id, not one per enrollment, because the table is a dict keyed by id. When an id is enrolled twice, the name of the last enrollment wins and the row stands at the position of the first (`RosterName`, `RosterOrder`).

## Model

| member | source | states |
|---|---|---|
| Filenames.RFind | face_attendance.py:26 | the index `splitext` looks for: the last occurrence of a character, or -1, with no occurrence after it |
| Filenames.SplitExt | face_attendance.py:26 | stem and extension concatenate back to the filename; the extension is empty or a '.' followed by characters that are neither '.' nor '/' |
| Filenames.SplitExtHasExtension | face_attendance.py:26 | the extension is non-empty exactly when, within the last path component, some '.' is preceded by a character other than '.' |
| Filenames.DotOnlyStemRejected | face_attendance.py:26-28 | a name made of dots and then dot-free text (".jpg", "..png") has no extension and is rejected with "Invalid file extension" |
| Filenames.LowerAscii | face_attendance.py:27 | lowering keeps the length and lowers each character (ASCII letters only) |
| Filenames.ExtensionCaseInsensitive | face_attendance.py:27 | an extension passes the lowered membership test against an allowed one exactly when it spells it letter by letter in either case |
| Filenames.AllowedExtensionShape | face_attendance.py:27 | any accepted extension is a '.' followed by at least three letters |
| Filenames.CountChar | face_attendance.py:30 | `count('_')` is the number of occurrences, that is, the multiset count |
| Filenames.SplitAtUnderscore | face_attendance.py:33 | for a stem with exactly one '_': the stem is the two parts joined by '_', and neither part has one |
| Filenames.Validate | face_attendance.py:23-39 | accepted exactly when the reason is empty; the reason is always one of the three messages or empty |
| Filenames.ShapeAccepted | face_attendance.py:26-37 | every `<name>_<digits><ext>` with no '_' in name (name may be empty) and an allowed extension in any case is accepted, and splits back into name and id |
| Filenames.AcceptedShape | face_attendance.py:26-37 | conversely every accepted filename is `<name>_<id><ext>` with no '_' in name, a non-empty all-digit id and an allowed extension |
| Filenames.RejectionOrder | face_attendance.py:27-35 | each rejection reason holds exactly when its check is the first to fail: extension, then underscore count, then numeric id |
| Training.IdentityOf | face_attendance.py:77 | the enrolled name and id, joined by '_', give the file's stem; the name has no '_' and the id is digits |
| Training.AssessEnrolls | face_attendance.py:54-79 | a file is enrolled exactly when its name is valid and exactly one face is located, with its identity and encoding |
| Training.AssessSkips | face_attendance.py:54-84 | a skipped file records the validator's reason, the exception text, "No faces detected" or "Multiple faces detected", in the order of the checks |
| Training.TrainModel | face_attendance.py:41-84 | the loop builds exactly the fold `Train` of the listing; both lists have equal length; enrolled plus skipped equals the number of files |
| Training.TrainSizes | face_attendance.py:50-84 | both lists grow in lockstep to the number of enrollable files, and every file lands in exactly one of store and skipped list |
| Training.TrainOne | face_attendance.py:54-84 | training one file gives one entry when it is enrollable, and otherwise one skipped message with the right reason and no entry |
| Training.TrainAppend | face_attendance.py:50-84 | training `a` then `b` gives the report of `a` followed by that of `b`: entries keep the listing's order |
| Training.TrainEntryFrom | face_attendance.py:74-79 | every stored entry comes from an enrollable file, with that file's identity and encoding at the same index |
| Training.TrainEnrollsEvery | face_attendance.py:74-79 | every enrollable file has an entry with its identity and encoding |
| Attendance.Put | face_attendance.py:112-113 | dict assignment keeps the table well formed, sets the key, changes no other key, and keeps the existing key order as a prefix |
| Attendance.RosterKeys | face_attendance.py:112-113 | the initial table holds exactly the enrolled ids, all Absent |
| Attendance.RosterName | face_attendance.py:112-113 | for an id enrolled more than once, the name of its last enrollment is kept |
| Attendance.RosterFirstIds | face_attendance.py:112-113 | the table's key order is the first-enrollment order `FirstIds` |
| Attendance.FirstIdsOrder | face_attendance.py:112-113 | of two ids in first-enrollment order, the earlier is enrolled before the later is enrolled at all |
| Attendance.RosterOrder | face_attendance.py:112-113 | the same, stated for the table's key order |
| Attendance.Distances | face_attendance.py:119 | one distance per stored encoding, in store order |
| Attendance.ArgMin | face_attendance.py:120 | numpy `argmin`: an index of a minimum, strictly smaller than every earlier entry (first minimum) |
| Attendance.BestMatch | face_attendance.py:119-122 | a match is the first closest encoding and is within the tolerance 0.55; there is none exactly when every distance exceeds it |
| Attendance.MatchedIdsIff | face_attendance.py:118-124 | an id is marked Present exactly when it is the winner of at least one face |
| Attendance.MatchedIdsGrow | face_attendance.py:118-124 | statuses only go from Absent to Present: the ids matched by a prefix of the faces stay matched |
| Attendance.MatchedIdsEnrolled | face_attendance.py:123-124 | only enrolled ids are ever marked Present |
| Attendance.Marked | face_attendance.py:118-124 | the table after matching keeps keys, order and names; an entry is Present exactly when its id was matched |
| Attendance.MarkedAdd | face_attendance.py:124 | marking one more id Present changes that entry's status and nothing else |
| Attendance.WriteLog | face_attendance.py:128-144 | the rows already in the file are kept; the header is appended exactly when the file did not exist; then one row per table key in table order |
| Attendance.MarkAttendance | face_attendance.py:98-144 | nothing is written when the store is missing, the image cannot be loaded, or argmin meets an empty store; otherwise the log gets the header if new, then the marked roster's rows |
| Attendance.RosterRowsComplete | face_attendance.py:138-144 | every row has four cells: an enrolled id, "Present" exactly when the id was matched and "Absent" otherwise, and the run's timestamp |
| Attendance.RosterRowsOrder | face_attendance.py:138-144 | the rows list the ids in first-enrollment order, one row per distinct id |
| Attendance.RosterRowsDistinct | face_attendance.py:138-144 | no id is written twice |
| Attendance.RosterRowOf | face_attendance.py:138-144 | each enrolled person's row, for the last enrollment of the id, is exactly [name, id, status, timestamp] |
| Attendance.TwoStudentRoster | face_attendance.py:112-113 | enrolling Alice (1) then Bob (2) gives both, Absent, in that order |
| Attendance.ClassroomScenario | face_attendance.py:112-144 | with Alice and Bob enrolled and only Alice's face in view, the rows are Alice Present then Bob Absent |

## Left out

- The face library (`load_image_file`, `face_locations`, `face_encodings`, `face_distance`) is opaque. Its results are the inputs `detect`, `scan` and `distance`. During training, any exception it raises is one `Raised` message, whichever call raised it.
- The second `face_locations` call in `mark_attendance` (line 109) feeds only the display and is not modelled.
- Pickle: saving the store (lines 87-88) is not modelled. Loading it (lines 100-105) is the `saved` input; `None` stands for `FileNotFoundError`. A corrupt store file raises other errors, which are not modelled.
- Attendance.MarkAttendance: requires the store's two lists to have equal length. `TrainModel` guarantees this (`TrainSizes`). The `IndexError` that a hand-edited store could cause is not modelled.
- The OpenCV display (lines 147-152), the `__main__` prompts and every `print` are not modelled.
- Training.TrainSizes: "every file lands in exactly one place" holds only when the success `print` at line 80 succeeds. That print runs inside the `try`, after the two appends. If it raised (stdout cannot encode the name, a broken pipe), the handler at line 83 would also record the enrolled file as skipped.
- The clock and the filesystem are not modelled:
  - `datetime.now` is the `timestamp` parameter;
  - `get_daily_filename` and `os.makedirs` are not modelled;
  - `os.listdir` is the `filenames` parameter, in whatever order the listing gives;
  - `os.path.isfile` is `LogFile.onDisk`.
- CSV quoting is not modelled: a row is its sequence of cells.
- Filenames.IsDigits accepts only '0'..'9'. Python's `str.isdigit` also accepts other Unicode digits, so the model rejects some ids that Python accepts.
- Filenames.LowerAscii lowers only 'A'..'Z'. Python's `str.lower` also lowers non-ASCII letters. None of those lowers to a character of ".jpg", ".jpeg" or ".png", so the extension check comes out the same.
- The `except` branch of `validate_filename` (lines 38-39) is not modelled. Once the underscore count is 1, `split('_')` yields exactly two parts, so nothing there can raise.
- An exception raised while loading the classroom image ends the run with no write (outcome `ImageUnreadable`). The uncaught exception itself is not modelled.
- `argmin` on an empty store, when a face was found, ends the run with no write (outcome `EmptyArgmin`). The `ValueError` itself is not modelled.
- Distances are reals compared with `<=` against 0.55. Floating-point rounding is not modelled.
