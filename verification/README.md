# Upload widget staging store, in Dafny

This project models the file staging store of the document upload widget,
in both of its forms: the vanilla-DOM page `app.js` and the React page
`pages/upload.js`. A user stages files by picking or dropping them. Each
staged entry gets an id, a default category from its extension, and default
metadata. The user can edit an entry's metadata or remove it. A submit sends
everything as one multipart request. The store is an immutable
`seq<StagedFile>`, and every handler is a pure function.

Modules, following the program's structure:

- `Text`: the JavaScript string primitives the pages rely on. These are
  `toLowerCase` (restricted to the ASCII letters and U+212A KELVIN SIGN), `lastIndexOf`,
  `split` on one character, and the decimal form of a count.
- `Html`: `escapeText`, and a decoder that inverts it.
- `FileNames`: the two extension rules and the title regex `/\.[^/.]+$/`.
  `app.js` splits on '.', so a dot-less name yields the whole name.
  `pages/upload.js` uses `lastIndexOf`, so a dot-less name yields "".
- `Catalog`: the selector value sets and the category table.
- `Store`: the staging records and the operations on them:
  - `addFiles` / `onFiles`, with the 50-entry cap applied before the
    100 MiB size filter;
  - remove by id, and Escape-removes-last;
  - `updateMeta`, in the `find` form (`app.js`) and the `map` form
    (`pages/upload.js`).
- `StoreProperties`: the properties that hold across operations. These are
  the count and size bounds, and id uniqueness under fresh ids. It also has
  worked examples of the cap.
- `View`: the "1 file ready" / "N files ready" status line and the
  image-preview predicate.
- `Submission`: the HTTP outcome (`res.ok` is a status in 200..299, or a
  transport error) and the form body, with a read-back that inverts it.
- `VanillaPage` and `ReactPage`: each page as a state machine over events,
  with the submit button's state and the number of pending requests.

`crypto.randomUUID` becomes an oracle. Each `addFiles`/`onFiles` call takes
a sequence of ids, and the k-th surviving candidate gets the k-th id. That
ids are distinct and fresh is a hypothesis (`StoreProperties.FreshIds`),
not something the code ensures. The response of `fetch` is an input to the
submit step.

`app.js` sets `submitBtn.disabled` from emptiness alone in `render()`
(line 91). That also happens while an upload is pending (see Findings). So
every redrawing event of `VanillaPage` takes a flag: `guarded = false` is
the code as written, and `guarded = true` is the corrected redraw.

The cap is applied before the size filter, so oversize candidates still use
up room (app.js:55-63, pages/upload.js:42-50); see
`StoreProperties.CapCountsOversizeCandidates`.

## Model

| member | source | states |
|---|---|---|
| Text.Lower | app.js:23 | lower-casing keeps the length, maps 'A'..'Z' and U+212A to their lower-case ASCII letters and keeps every other character, in place |
| Text.LowerIdempotent | app.js:23 | lower-casing a lower-cased name changes nothing, so a lower-cased extension is a fixed point of the lookup |
| Text.LastIndexOf | pages/upload.js:14 | the result is -1 or a position holding the character, and no later position holds it |
| Text.Split | app.js:23 | `split('.')` yields at least one part, no part contains the separator, and joining the parts with '.' gives the name back |
| Text.SplitJoin | app.js:23 | splitting the join of separator-free parts gives exactly those parts back |
| Text.Decimal | app.js:102 | the `${n}` rendering of a count is a non-empty digit string with no leading zero except for 0 itself |
| Text.ParseDecimalInvertsDecimal | app.js:102 | the decimal rendering of a count reads back as that count |
| Html.EscapeText | app.js:22 | the escaped text has no `<`, `>`, `"` or `'`, is never shorter than the input, and equals the input when it has no special characters |
| Html.UnescapeInvertsEscape | app.js:22 | escaping is lossless: decoding the five character references gives the original text back |
| Html.EscapeTextAppend | app.js:22 | the global replace works character by character, so escaping distributes over concatenation |
| FileNames.ExtVanilla | app.js:23 | the extension is the lower-cased maximal dot-free suffix of the name: the text after the last '.', or the whole name when there is no '.' ("" for a name ending in '.') |
| FileNames.ExtReact | pages/upload.js:13-16 | "" for a name without '.'; otherwise the lower-cased text after the last '.' |
| FileNames.ExtVariantsAgreeOnDottedNames | app.js:23 | the two extension rules agree on every name containing '.', and differ on a dot-less name (whole name against "") |
| FileNames.ExtIgnoresCase | pages/upload.js:13-16 | the extension of the lower-cased name equals the extension of the name, under either rule |
| FileNames.Title | app.js:72 | the title is a prefix of the name; where `/\.[^/.]+$/` matches it is the name cut before the match, otherwise the whole name |
| Catalog.CategoryOfExtension | app.js:25-35 | the category is in the selector's list and never `Other`; each category is chosen exactly for the extensions of its own row, and `Documents` exactly for extensions no row lists |
| Catalog.DefaultCategory | pages/upload.js:17-27 | `getDefaultCategory` returns a member of `categories`, never `Other`, and `Documents` exactly when the extension is unknown |
| Catalog.DefaultCategoryIgnoresCase | pages/upload.js:17-27 | the inferred category does not depend on the case of the file name |
| Catalog.DefaultCategoryVariants | app.js:23-35 | both pages infer the same category for a dotted name; on a dot-less name React says `Documents` and app.js looks up the whole lower-cased name |
| Catalog.ReportPdfIsDocument | pages/upload.js:13-27 | "report.PDF" is a `Documents` entry |
| Catalog.PhotoJpgIsImage | pages/upload.js:13-27 | "photo.JPG" is an `Images` entry on both pages |
| Catalog.NoExtIsDocument | pages/upload.js:13-27 | "noext" is a `Documents` entry on the React page |
| Catalog.BareZipIsArchiveOnVanilla | app.js:23-35 | a file named "zip" is `Archives` on app.js but `Documents` on the React page |
| Store.SetField | app.js:87 | assigning one field sets it to the value and leaves the id, the file and every other field unchanged |
| Store.NewEntry | app.js:64-74 | a new entry carries its file and id, the inferred category, priority `Medium`, hierarchy `Level 1`, SAP module and content type `Other`, an empty author, and as title the name with its final `/\.[^/.]+$/` match removed (`FileNames.Title`) |
| Store.WithinLimit | app.js:59-63 | a candidate survives the size filter exactly when it is at most `MAX_SIZE_BYTES`, and the filter never lengthens the batch |
| Store.Stage | app.js:58-75 | the staged entries' files are exactly the size-filtered batch in order, and the k-th is a new entry built with the k-th oracle id |
| Store.SliceEnd | app.js:56 | `slice(0, end)` keeps `min(len, end)` items for a non-negative end, and drops `-end` items from the back (down to none) for a negative one |
| Store.Room | app.js:55-56 | for a store within the cap, the batch is cut to `min(batch length, MAX_FILES - store length)` |
| Store.AddFiles | app.js:54-77 | the old store is an unchanged prefix; a store within the cap stays within it; the appended files are exactly the candidates among the first `MAX_FILES - length` with size at most `MAX_SIZE_BYTES`, in batch order, each a new entry with the oracle's next id |
| Store.OnFiles | pages/upload.js:40-64 | the same as `AddFiles` with the lastIndexOf extension rule; the cap comes from the closed-over length, so the bound holds when that length is the current one |
| Store.RemoveFile | app.js:80-83 | an entry survives exactly when it was present and carries another id; the survivors keep their order; an absent id leaves the store unchanged |
| Store.RemoveFileAppend | app.js:81 | removal by id distributes over concatenation of stores |
| Store.RemoveLastDropsLast | app.js:51 | with distinct ids, Escape on a non-empty store drops exactly the last entry, and on an empty one does nothing |
| Store.AddThenRemoveRestores | app.js:54-83 | adding one small file with a fresh id to a store below the cap and removing it by that id restores the store |
| Store.UpdateFirst | app.js:85-88 | only the first entry with the id changes, and only in the named field, which takes the value; every other entry is unchanged, and an unknown id is a no-op |
| Store.UpdateAll | pages/upload.js:69-70 | length and ids are kept; entries with another id are unchanged; matching entries take the value in the named field and differ in nothing else |
| Store.UpdatesAgreeOnUniqueIds | pages/upload.js:69-70 | with distinct ids the `map` update of the React page and the `find` update of app.js give the same store |
| StoreProperties.NewEntryIsWellFormed | app.js:64-74 | every selector field of a new entry holds one of its catalog's values |
| StoreProperties.AddFilesKeepsWellFormed | app.js:54-77 | adding keeps every entry's selector fields inside their catalogs |
| StoreProperties.SmallBatchFits | app.js:55-76 | when every candidate is small, the appended entries hold exactly the first candidates that fit under the cap, in batch order |
| StoreProperties.AddFilesKeepsBounded | app.js:55-76 | adding keeps a store within the count cap and with every file at most `MAX_SIZE_BYTES` |
| StoreProperties.AddFilesKeepsIdsUnique | app.js:65 | with fresh oracle ids, adding keeps all ids in the store distinct |
| StoreProperties.RemoveFileKeepsIdsUnique | app.js:81 | removal keeps distinct ids distinct |
| StoreProperties.RemoveFileKeepsBounded | app.js:81 | removal keeps the store within its bounds |
| StoreProperties.UpdateFirstKeepsIdsAndBounds | app.js:85-88 | editing metadata changes no id and no file, so uniqueness and bounds are kept |
| StoreProperties.UpdateFirstKeepsWellFormed | app.js:139-157 | editing a selector with a value its control offers keeps every selector field inside its catalog |
| StoreProperties.SixtyCandidatesStageFirstFifty | app.js:55-56 | sixty small candidates on an empty store stage exactly the first fifty, in order |
| StoreProperties.CapCountsOversizeCandidates | app.js:55-63 | the cap is applied before the size filter: sixty candidates whose first is oversize stage only forty-nine |
| StoreProperties.StaleLengthOverfills | pages/upload.js:42-63 | a callback that closed over an empty store and appends to a full one takes the store to 51 entries |
| StoreProperties.OverfullStoreStillGrows | app.js:55-56 | a negative slice end counts from the back, so a store already over the cap would still grow |
| View.CountLabel | app.js:102 | the label is "1 file ready" exactly for a count of 1; otherwise it is the count in decimal followed by " files ready" |
| View.CountLabelRoundTrip | pages/upload.js:142 | the label determines the count: reading it back gives the count |
| View.StatusLine | app.js:94-102 | no status line for an empty store; otherwise a label from which the number of staged files reads back |
| View.PreviewImpliesImage | app.js:173 | every file given an inline preview is categorised `Images`; a `.bmp` file is an image without a preview |
| Submission.FormParts | app.js:197-209 | the body has two parts per entry in store order: a file part with the entry's file, then a metadata part keyed `meta_` followed by its id |
| Submission.ReadBackFormParts | pages/upload.js:84-96 | the form body determines the store: reading it back gives every entry with its id, file and seven metadata values |
| VanillaPage.EscapeKey | app.js:51 | an empty store is left alone; with distinct ids the last entry is dropped; the pending count and loading state are untouched |
| VanillaPage.HandleSubmit | app.js:188-226 | an empty store sends nothing and changes nothing; success empties the store; failure keeps it; afterwards the loading state is off; as written the button is disabled exactly when the store is empty, however many uploads are pending; with the corrected redraw it is so when no other upload is pending, and stays disabled while one is |
| VanillaPage.RunKeepsBounded | app.js:54-88 | every event sequence keeps the store within its count and size bounds |
| VanillaPage.GuardedRunIsSafe | app.js:188-226 | with the corrected redraw, every event sequence keeps the bounds, at most one upload pending, and the button disabled while one is |
| VanillaPage.EscapeDuringUploadAllowsSecondUpload | app.js:91 | as written, Escape during an upload re-enables the button, and a second click starts a second concurrent upload |
| ReactPage.Drop | pages/upload.js:40-66 | a drop keeps the current store as a prefix, keeps the bounds, and leaves `busy`, the notice and the pending count alone |
| ReactPage.RemoveOne | pages/upload.js:68 | the result is a subsequence of the store holding exactly its entries with another id; `busy` and the notice are unchanged |
| ReactPage.Edit | pages/upload.js:69-70 | the store keeps its length; entries with the id take the value in the named field and differ in nothing else; others are unchanged |
| ReactPage.HandleSubmit | pages/upload.js:79-107 | an empty store is a no-op; success empties the store with the success notice; failure keeps it with the failure notice; afterwards `busy` is false and the button is disabled exactly when the store is empty |
| ReactPage.Click | pages/upload.js:77 | a click on a disabled button does nothing; otherwise the page becomes busy with one more request pending and the notice cleared |
| ReactPage.RunKeepsInv | pages/upload.js:77-107 | every event sequence keeps the bounds, at most one upload pending, and `busy` exactly while one is |
| ReactPage.SuccessfulReplyEmpties | pages/upload.js:97-106 | an ok reply to the pending upload empties the store, sets the success notice and clears `busy` |
| ReactPage.SuccessDropsFilesAddedMidFlight | pages/upload.js:63-99 | a drop while an upload is pending still stages its files (a small first candidate on a store below the cap makes it grow), and the successful reply then discards them unsent |

## Left out

- `formatSize` is floating-point numerics (`Math.log`, `toFixed`), and the model has no floats.
- DOM construction, JSX, event wiring, drag highlighting, `alert`, `console` and the button's caption text are UI plumbing. Only the button's `disabled` state and the status line are modelled.
- `fetch`, the `FormData` wire encoding and `JSON.stringify` are foreign calls. The request is the abstract part list `Submission.FormParts`, and the response is an input.
- `crypto.randomUUID` is a foreign call. It is an oracle sequence of ids, and uniqueness is a hypothesis (`StoreProperties.FreshIds`).
- Image-preview object URLs and `revokeObjectURL` are browser resource management. Only the preview's extension predicate is modelled.
- `pages/api/upload.js` is not part of this model. It is an HTTP pass-through proxy and pure I/O.
- The unused `Select` and `Input` components of `pages/upload.js` are presentational only.
- Text.Lower: maps only 'A'..'Z' and U+212A KELVIN SIGN. The other mappings of `toLowerCase` are not modelled: the rest of Unicode's single-character mappings, U+0130 becoming the two characters "i\u0307", and the context-sensitive final sigma. Every extension in the category table is plain lower-case ASCII, so no category lookup depends on them.
- FileNames.ExtIgnoresCase: holds for the model's `Lower`, not for JavaScript's `toLowerCase`. Final sigma makes `"a.Σ".toLowerCase()` equal to `"a.ς"`, while the extension of `"a.Σ"` is `"σ"`.
- Store.SetField: only the seven metadata fields can be named. JavaScript would also accept any other key, which no control of either page sends.
- ReactPage.Drop: takes the store length of the latest render as the closed-over length. The stale-closure case is modelled only in `Store.OnFiles` and `StoreProperties.StaleLengthOverfills`.
- VanillaPage.HandleSubmit: with the corrected redraw and another upload pending, states only that the button stays disabled. Which of the two requests settles last, and so when the button is enabled again, is left to the event sequence of `Run`.
- VanillaPage.RunKeepsBounded and VanillaPage.GuardedRunIsSafe start from any page meeting their hypothesis. The initial page (empty store, nothing pending) meets it, and the button's initial `disabled` attribute in the HTML is not part of this model.
- In both page machines, a pick or drop whose id oracle supplies fewer ids than candidates is ignored. Such an event cannot arise, because the browser calls `crypto.randomUUID` once per survivor.
- The `fileInput.value = ''` reset after a successful vanilla upload only clears the browser input and is left out.

## Findings

| source | as written | input that shows it | evidently intended | confidence | as-written member | corrected member |
|---|---|---|---|---|---|---|
| app.js:91 | `render()` sets `submitBtn.disabled = selectedFiles.length === 0` even while `handleSubmit` awaits `fetch`, so any redraw during an upload re-enables the button | two staged files, click submit, press Escape before the response: one file is left, the button is enabled, and a second click starts a second concurrent upload | the button stays disabled while a submission is pending, as `handleSubmit` sets it at line 191 and the React page does with `busy` | medium, not executed | VanillaPage.EscapeDuringUploadAllowsSecondUpload | VanillaPage.GuardedRunIsSafe |
