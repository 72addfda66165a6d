# Catanist puzzle images, puzzle list and creation form — a Dafny model

Catanist is a browser application for sharing puzzle scenarios about the board
game Catan. This project models the three places where it holds real logic:

- **Image lifecycle** (`src/utils/imageUpload.ts`). `validateImageFile` checks,
  in this order, that a file is present, that its media type is one of
  `image/jpeg`, `image/jpg`, `image/png` and `image/webp`, and that its size is
  at most 5 × 1024 × 1024 bytes. The first failed check decides the message.
  `uploadPuzzleImage` validates the file, builds the storage key
  `<userId>/<timestamp>-<suffix>.<ext>` and uploads to the `puzzle-images`
  bucket without overwriting. It returns the public URL, or nothing.
  `ext` is `name.split('.').pop()`. `deletePuzzleImage` takes the key as
  `pathname.split('/puzzle-images/')[1]`, removes it, and reports success.
- **Puzzle list** (`src/pages/Puzzles.tsx`). This is the difficulty filter:
  "All" or one of Easy, Experienced, Advanced and Pro. Also modelled are the
  empty-state message, the difficulty badge classes and the filter buttons.
- **Creation form** (`src/pages/Create.tsx`). The form holds six fields
  (title, description, difficulty, six choices, the correct choice and the
  explanation). Its edits are modelled, and so is `handleSubmit`: it refuses
  an incomplete puzzle, sends the record to the table, and resets the form.

Files:

- `wrappers.dfy` holds `Option`.
- `text.dfy` (module `Text`) models the JavaScript string operations the code
  relies on: `split` with a non-empty separator, and the decimal rendering of
  the timestamp inside a template literal. `Split` is defined with `IndexOf`,
  the search it repeats; `Join`, its inverse, is used to state `SplitJoin`.
- `object_store.dfy` (module `ObjectStore`) is the external bucket. It is a
  class holding a map from paths to stored objects and a log of the requests
  it received. Its `Upload` and `Remove` fail when the service says so.
- `image_upload.dfy` (module `ImageUpload`), `puzzles.dfy` (module `Puzzles`)
  and `create_puzzle.dfy` (module `CreatePuzzle`) follow the three source files.

Things the environment decides are parameters. These are the clock
(`Date.now()`), the random suffix, a store failure (`fault`) and whether the
insert call throws (`insertThrows`).

Some behaviours of the code worth noting, which the model keeps as written:

- A file name without a dot gets the whole name as its extension. A name that
  ends in a dot gets the empty extension.
- The key taken from a URL's pathname is only the text between the first and
  the second `/puzzle-images/`. Anything after a second occurrence is dropped.
- A prefix and a key that each lack `/puzzle-images/` do not guarantee a round
  trip. A prefix ending in `/puzzle-images` lets an earlier occurrence straddle
  the join (`ImageUpload.ImagePathStraddle`). `ImageUpload.ImagePathRoundTrip`
  therefore requires that the appended segment be the first occurrence.
- The size message says "less than 5MB", yet a file of exactly 5 MiB is
  accepted.

## Model

| member | source | states |
|---|---|---|
| `ImageUpload.ValidateImageFile` | src/utils/imageUpload.ts:34-54 | Valid exactly when a file is present, its type is allowed and its size is at most the ceiling; valid iff there is no error; a missing file gets "No file provided", then a bad type gets the type message, then an oversized file gets the size message |
| `ImageUpload.IsAllowedType` | src/utils/imageUpload.ts:20-39 | The allow-list test accepts exactly the four literals image/jpeg, image/jpg, image/png and image/webp, compared as written |
| `ImageUpload.Limits` | src/utils/imageUpload.ts:15-49 | The ceiling is 5242880 bytes and the size message reads "File size must be less than 5MB" |
| `ImageUpload.SizeBoundary` | src/utils/imageUpload.ts:46-53 | For an allowed type, size 5242880 and size 0 are valid and size 5242881 gets the size message |
| `ImageUpload.TypeBeforeSize` | src/utils/imageUpload.ts:39-51 | A disallowed type gets the type message whatever the size, so the type check comes before the size check |
| `ImageUpload.FileExtension` | src/utils/imageUpload.ts:81 | The extension is the longest dot-free suffix of the name: it contains no dot, it ends the name, and it is preceded by a dot unless it is the whole name; a name without a dot is its own extension |
| `ImageUpload.ExtensionAfterLastDot` | src/utils/imageUpload.ts:81 | For any stem and any dot-free `e`, the extension of `stem + "." + e` is `e` |
| `ImageUpload.TrailingDot` | src/utils/imageUpload.ts:81 | A name ending in a dot has the empty extension |
| `ImageUpload.StorageKey` | src/utils/imageUpload.ts:81-82 | The key starts with `userId + "/"` and has the same extension as the original file name |
| `ImageUpload.StorageKeyDetermines` | src/utils/imageUpload.ts:80-82 | For the same user and file name, equal keys mean equal timestamps and equal suffixes: the key encodes both |
| `ImageUpload.ImagePath` | src/utils/imageUpload.ts:124-128 | An extracted key is non-empty and holds no `/puzzle-images/`; a pathname without the segment yields no key |
| `ImageUpload.ImagePathLocated` | src/utils/imageUpload.ts:124 | The key starts right after the first occurrence of `/puzzle-images/` and ends at the next occurrence or at the end of the pathname |
| `ImageUpload.ImagePathBetween` | src/utils/imageUpload.ts:124-128 | Conversely, the text between the first occurrence of `/puzzle-images/` and the next occurrence (or the end) is the extracted key when it is non-empty, and nothing is extracted when it is empty |
| `ImageUpload.ImagePathSingle` | src/utils/imageUpload.ts:124-128 | When the segment first occurs at a position and does not occur after that occurrence, extraction yields everything after it, or nothing when that is empty |
| `ImageUpload.ImagePathRoundTrip` | src/utils/imageUpload.ts:124-128 | For `prefix + "/puzzle-images/" + key`, where the appended segment is the first occurrence and the key holds none, extraction yields the key, or nothing when the key is empty |
| `ImageUpload.ImagePathStraddle` | src/utils/imageUpload.ts:124 | Prefix "/puzzle-images" and key "x" both lack the segment, yet extraction yields "puzzle-images/x" |
| `ImageUpload.ForeignPathname` | src/utils/imageUpload.ts:124-128 | The pathname "/not-our-bucket/x.png" yields no key, so no remove call is made |
| `ImageUpload.UploadPuzzleImage` | src/utils/imageUpload.ts:69-106 | An invalid file returns nothing and leaves the bucket and its request log unchanged; a valid one issues exactly one upload of the storage key with cache hint "3600" and upsert off; it returns the public URL of the key, and stores the file, exactly when the store reports no fault and the key was not already present; otherwise the stored objects are unchanged |
| `ImageUpload.DeletePuzzleImage` | src/utils/imageUpload.ts:120-143 | A pathname without a key returns false with no store request; otherwise one remove request for `[key]` is issued; the result is true exactly when the store reports no error, and then the key is gone |
| `ImageUpload.UploadThenDelete` | src/utils/imageUpload.ts:82-138 | With no store faults and a public base of origin, pathname prefix and bucket segment, a fresh valid upload returns the URL origin + prefix + segment + key; deleting through that URL's pathname then returns true, and the key is no longer stored |
| `ObjectStore.Bucket.Upload` | src/utils/imageUpload.ts:85-94 | Logs the request; fails on a fault or, without upsert, on an existing path, leaving the objects unchanged; otherwise stores the content with its cache hint and returns the path |
| `ObjectStore.Bucket.PublicUrl` | src/utils/imageUpload.ts:97-99 | The public URL is the bucket's base followed by the path, so the path can be read back from it |
| `ObjectStore.Bucket.Remove` | src/utils/imageUpload.ts:130-136 | Logs the request; the error is the service's; without an error the listed paths are removed and nothing else changes |
| `Text.IndexOf` | src/utils/imageUpload.ts:124 | Returns the first position at or after `from` where the pattern occurs, or nothing exactly when it occurs at no such position |
| `Text.IndexOfFirst` | src/utils/imageUpload.ts:124 | The search returns any occurrence that has no earlier occurrence from `from` on, so the result is determined by the occurrences |
| `Text.Split` | src/utils/imageUpload.ts:81-124 | There is at least one piece, no piece holds the separator, and joining the pieces with the separator gives the string back |
| `Text.SplitJoin` | src/utils/imageUpload.ts:124 | Joining the pieces of a split with the separator gives back the string that was split |
| `Text.SplitPiecesFree` | src/utils/imageUpload.ts:81-124 | No piece of a split contains the separator |
| `Text.SplitCount` | src/utils/imageUpload.ts:124 | There is more than one piece exactly when the separator occurs |
| `Text.SplitNoMore` | src/utils/imageUpload.ts:124 | With no occurrence from a position on, the rest of the string is the only piece |
| `Text.FirstPiece` | src/utils/imageUpload.ts:124 | The first piece is a slice of the string that ends at the next occurrence of the separator or at the end of the string |
| `Text.PieceUpTo` | src/utils/imageUpload.ts:124 | Conversely, a stretch with no occurrence that ends at an occurrence or at the end of the string is the first piece |
| `Text.SplitSecond` | src/utils/imageUpload.ts:124 | The second piece starts right after the first occurrence of the separator and ends at the next occurrence or at the end of the string |
| `Text.SplitLast` | src/utils/imageUpload.ts:81 | The last piece (what `pop()` returns) is the suffix of the string from some position on, and the separator occurs nowhere from there; that position is where the split starts exactly when there is one piece, and otherwise the separator ends right before it |
| `Text.LastPieceSuffix` | src/utils/imageUpload.ts:81 | The last piece of a whole-string split ends the string and holds no occurrence from its start on; with one piece it is the whole string, otherwise the separator comes right before it |
| `Text.DecimalString` | src/utils/imageUpload.ts:82 | The timestamp renders as a non-empty string of decimal digits with no leading zero |
| `Text.DecimalRoundTrip` | src/utils/imageUpload.ts:82 | Reading the rendered digits back gives the timestamp |
| `Text.DigitsThenDash` | src/utils/imageUpload.ts:82 | A digit string, a dash and a tail can be taken apart again: equal concatenations have equal digit strings and equal tails |
| `Puzzles.OfDifficulty` | src/pages/Puzzles.tsx:55 | A puzzle is in the result exactly when it is in the input and has the chosen difficulty; the result is no longer than the input |
| `Puzzles.FilteredPuzzles` | src/pages/Puzzles.tsx:53-55 | "All" returns the input unchanged; a puzzle is in the result exactly when it is in the input and passes the selection |
| `Puzzles.OfDifficultyPositions` | src/pages/Puzzles.tsx:55 | The result is the input read at strictly increasing positions, which are exactly the positions of the puzzles with that difficulty; so the order is kept, nothing is dropped, and the length is the number of matches |
| `Puzzles.FilteredPositions` | src/pages/Puzzles.tsx:53-55 | The same ordered, exact positions for the page's filter under any selection |
| `Puzzles.ShowsEmptyState` | src/pages/Puzzles.tsx:134-139 | The empty-state message shows exactly when no puzzle in the list passes the selection |
| `Puzzles.DifficultyColor` | src/pages/Puzzles.tsx:57-64 | Every difficulty gets a non-empty badge class |
| `Puzzles.DifficultyColorsDistinct` | src/pages/Puzzles.tsx:57-64 | Different difficulties have different badge classes, and none is empty |
| `Puzzles.OptionsCoverSelections` | src/pages/Puzzles.tsx:51 | The five buttons are, in order, All, Easy, Experienced, Advanced and Pro; every selection appears and none repeats |
| `CreatePuzzle.SomeEmpty` | src/pages/Create.tsx:35 | True exactly when some choice is the empty string |
| `CreatePuzzle.Incomplete` | src/pages/Create.tsx:35 | The guard passes exactly when the title, the description and every choice are non-empty; the explanation, difficulty and correct choice play no part |
| `CreatePuzzle.FreshFormIncomplete` | src/pages/Create.tsx:15-35 | The initial values fail the guard because every choice is empty |
| `CreatePuzzle.PuzzleForm.constructor` | src/pages/Create.tsx:15-20 | The form starts with empty title, description and explanation, difficulty "Easy", six empty choices and correct choice 0 |
| `CreatePuzzle.PuzzleForm.SetTitle` | src/pages/Create.tsx:105 | Only the title changes, and the form keeps its six choices |
| `CreatePuzzle.PuzzleForm.SetDescription` | src/pages/Create.tsx:115 | Only the description changes, and the form keeps its six choices |
| `CreatePuzzle.PuzzleForm.SetDifficulty` | src/pages/Create.tsx:124 | Only the difficulty changes, and the form keeps its six choices |
| `CreatePuzzle.PuzzleForm.SetExplanation` | src/pages/Create.tsx:166 | Only the explanation changes, and the form keeps its six choices |
| `CreatePuzzle.PuzzleForm.UpdateChoice` | src/pages/Create.tsx:22-28 | The choices keep their six entries; the entry at the index becomes the value, every other entry is kept, and no other field changes |
| `CreatePuzzle.PuzzleForm.HandleCorrectChoice` | src/pages/Create.tsx:30-32 | The correct choice becomes the index and no other field changes, so the form keeps its six choices |
| `CreatePuzzle.PuzzleForm.HandleSubmit` | src/pages/Create.tsx:34-76 | A record is sent exactly when the guard passes, and it is the form's current record; a refused submission or a throwing insert leaves all six fields unchanged; an insert that does not throw resets every field to its initial value |

## Left out

- URL parsing (`new URL(...)`) is left out: deletion starts from the
  pathname, which `UploadThenDelete` takes as the URL after a given origin.
  `url.pathname` is percent-encoded and the code does not decode it before
  removing, so the upload/delete round trip holds only for keys that URL
  encoding leaves unchanged (no space, `%`, `#`, `?` or non-ASCII character).
- The storage service's own behaviour is left out: its public-URL format,
  whether removing an absent key is an error, and transport failures. URLs
  are a fixed base followed by the path. Store failures are the `fault`
  parameter.
- The bytes of a file are left out. A file is its name, declared type and
  declared size. The stored object is that file record.
- The random suffix is any string. `Math.random().toString(36).substring(7)`
  is not modelled. So the model does not claim that two uploads get distinct
  keys, only that distinct timestamps or suffixes give distinct keys.
- `Date.now()` is left out. The timestamp is a parameter of any size, with no
  64-bit floating-point limit.
- The asynchronous scheduling of `UploadPuzzleImage`, `DeletePuzzleImage` and
  `HandleSubmit` is left out, and each runs to completion as one step. For
  `HandleSubmit` this means an edit made while the insert is awaited is not
  modelled; in the code the reset afterwards overwrites it. So is the `try`/`catch` plumbing: a caught exception is the
  `None` or `false` result.
- Error logging with `console.error` and `console.log` is left out.
- The insert of `handleSubmit` is abstract. `HandleSubmit` reports the record
  it sent. Only a thrown exception skips the reset. An error the insert
  returns without throwing is not inspected by the source. It is not
  modelled separately, because it behaves exactly like success.
- Toast notifications, JSX rendering and styling are left out.
- `PuzzleForm.UpdateChoice` requires the index to be one of the six
  positions. The page only calls it with the index of a rendered choice. An
  index out of range would grow the JavaScript array, and that is not modelled.
- `src/components/ImageUpload.tsx` is left out. It is component state and
  notifications around the rules above, plus a preview update that can race
  with the upload outcome.
- `src/pages/Progress.tsx` is left out. Its only computation is a
  floating-point percentage over mock data.
- `src/pages/SolvePuzzle.tsx` is left out. It holds static mock data and a
  single equality test.
- `src/pages/Index.tsx`, `src/pages/NotFound.tsx` and
  `src/components/Navigation.tsx` are left out. They only render and route.
- The mock puzzle list on the collection page is not modelled. The filter
  works over any list.
