# Bathroom-image catalog: a Dafny model

This project models the core of a small bathroom-image catalog. A user uploads
a photo. A classifier names the bathroom type ("Modern" or "Western") and an
object detector lists the objects it sees ("sink", "mirror", ...). The user
confirms or corrects the type and each label on a confirmation screen. The
intended commit would then file one copy of the image per label at
`output_images/<type>/<label>/<id>.jpg` and record one index row
`(img_id, class_name, hierarchy)` per label; the screen code never performs
it (see Findings). A keyword search matches rows
whose label or type contains the keyword, ignoring case and accents, and
returns the paths of the copies that still exist. Results are shown ten per
page.

The state is modelled as immutable values:

- the index table is a sequence of `Row`s;
- the disk is a map from path strings to images, with the image type a
  parameter;
- the classifier and the detector are function parameters;
- the submission id is a parameter.

Modules follow the program's structure:

- `Text`: the search normalisation and substring test;
- `Paths`: `os.path.join`, base names, the catalog layout;
- `Seqs`: sequence helpers;
- `Index`: `save_to_db`;
- `Storage`: `save_image_to_structure`;
- `Pipeline`: `run_full_pipeline`, `get_class_names`;
- `Search`: `search_images`;
- `Catalog`: the commit formed by the two writes;
- `Frontend`: deduplication, the confirmation state, completion;
- `Pages`: paging of search results.

Three facts about the code shape the model:

- Detected labels are deduplicated on the confirmation screen
  (frontend.py:40), not by `run_full_pipeline`. So `RunFullPipeline` returns
  the detector's output verbatim and `StartSession` deduplicates.
- The temporary `<id>.jpg` written by `run_full_pipeline` is never removed:
  neither the commit nor a failed staging deletes it.
- Nothing in the screen code calls the commit (see Findings).

## Model

| member | source | states |
|---|---|---|
| Text.Normalize | inference.py:81-82 | the normalised text contains only ASCII characters and no upper-case letter, is no longer than its input, and is empty when the input has no ASCII character |
| Text.NormalizeFixesNormal | inference.py:81-82 | a string already ASCII and lower-case normalises to itself |
| Text.NormalizeIdempotent | inference.py:81-82 | normalising twice gives the same text as normalising once |
| Text.NormalizeIgnoresCase | inference.py:82 | upper-casing the ASCII letters of a string does not change its normalisation |
| Text.StartsWith | inference.py:47 | `str.startswith`: the text begins with the prefix |
| Text.IsSubstring | inference.py:95 | Python's `needle in haystack` on strings, read as "some suffix of the text starts with the keyword"; its meaning is stated by Text.IsSubstringOccurs |
| Text.IsSubstringOccurs | inference.py:95 | the keyword test succeeds exactly when the keyword occurs at some position of the text |
| Text.SubstringBasics | inference.py:95 | the empty keyword is contained in every text and every text contains itself |
| Paths.Join | inference.py:52-54 | one step of POSIX `os.path.join`; its meaning is stated by Paths.JoinMeaning |
| Paths.JoinMeaning | inference.py:52-54 | an absolute component replaces the path; otherwise the result is the path, then a separator exactly when the path is non-empty and does not already end with one, then the component |
| Paths.CatalogPath | inference.py:99 | the path `os.path.join(SAVE_ROOT, hierarchy, class_name, "<id>.jpg")` that both the commit and the search use; its layout is stated by Paths.CatalogPathLayout |
| Paths.UnderRoot | inference.py:45 | the files `os.walk(SAVE_ROOT)` visits: paths beginning with `output_images/` |
| Paths.Basename | frontend.py:116 | a file name contains no separator, is a suffix of its path, and starts right after the path's last separator (or is the whole path when there is none) |
| Paths.CatalogPathLayout | inference.py:52-54 | with plain components, the catalog path is the root, the type, the label and `<id>.jpg` separated by single slashes |
| Paths.BasenameAfterSep | inference.py:45-47 | the name of a file found in a directory is the text after that directory's separator |
| Paths.CatalogPathPlacement | inference.py:45-54 | with plain components, every copy the commit writes lies under the save root, and its file name is `<id>.jpg`, so it starts with its id |
| Paths.FileNameIsBare | inference.py:59 | the temporary file name of a bare id contains no directory separator |
| Paths.NoSepNotUnderRoot | inference.py:59-60 | a path with no separator is not inside the save root |
| Paths.CatalogPathInjective | inference.py:99 | distinct (type, label, id) triples with plain components have distinct paths |
| Index.DeleteRows | inference.py:34 | `DELETE FROM detections WHERE img_id = ?`, keeping the other rows in order; never longer than the table; its members are stated by Index.DeleteRowsKeepsOthers |
| Index.DeleteRowsKeepsOthers | inference.py:34 | the delete keeps exactly the rows whose id differs |
| Index.Records | inference.py:35-39 | the insert loop adds one row per label, in label order, each carrying the id and the type |
| Index.SaveToDb | inference.py:30-41 | afterwards the rows of the id are exactly one `(id, label, type)` per label, with multiplicity and order from the labels, and every other id's rows are unchanged |
| Index.RowsForDeleted | inference.py:34 | after the delete the id has no rows and every other id keeps its rows |
| Index.RowsForRecords | inference.py:35-39 | the inserted rows all carry the id, so they belong to no other id |
| Index.DeleteRowsIdempotent | inference.py:34 | deleting the rows of an id twice is the same as deleting them once |
| Index.SaveToDbRecommit | inference.py:33-39 | committing labels `a` and then labels `b` gives the same table as committing `b` alone, and every remaining row of the id comes from `b` |
| Index.SaveToDbIdempotent | inference.py:30-41 | committing the same labels twice gives the same table as one commit |
| Storage.Superseded | inference.py:45-47 | the scan's delete test: a file under the save root whose name starts with the id |
| Storage.Targets | inference.py:51-54 | the paths the write loop saves to: one catalog path per label under the type |
| Storage.SaveImageToStructure | inference.py:43-55 | every label's catalog path holds the image; every other file was there before with the same content and is not a superseded copy of the id; every file the scan does not delete survives |
| Storage.TargetsAreSuperseded | inference.py:47-54 | with plain components, each copy written for an id is a file the next recommit of that id deletes |
| Storage.SaveReplacesCopies | inference.py:43-55 | with plain components, afterwards the files of the id under the save root are exactly one copy per label, whatever type or labels earlier copies used; files that are not the id's are untouched |
| Storage.SaveRecommit | inference.py:43-55 | with plain components in the first write, writing labels `a` and then labels `b` leaves the same disk as writing `b` alone, so no copy of `a` lingers |
| Storage.KeptAfterSave | inference.py:45-48 | the files that survive a scan for an id are the same before and after a write of plain copies for that id |
| Storage.Kept | inference.py:45-48 | the files that the scan for an id leaves in place: those outside the save root or whose name does not start with the id |
| Storage.SaveIdempotent | inference.py:43-55 | writing the same copies twice leaves the disk of one write, whatever the type and labels |
| Storage.SaveDeletesByPrefix | inference.py:47-48 | the scan deletes by name prefix, so a copy belonging to a different id that extends this id is removed too |
| Pipeline.GetClassNames | inference.py:27-28 | the list of bathroom types is non-empty and offers both "Modern" and "Western" |
| Pipeline.RunFullPipeline | inference.py:57-76 | the staged result has the given id, the temporary path `<id>.jpg`, the classifier's type, and the detector's labels verbatim with no deduplication; the disk gains only the temporary file |
| Pipeline.StagingKeepsCatalog | inference.py:68-69 | staging changes no file under the save root, so no catalog copy is written |
| Search.RowMatches | inference.py:94-96 | a row matches when the normalised keyword is contained in its normalised label or its normalised type |
| Search.MatchingRows | inference.py:91-96 | the set of distinct matching triples (`matching_ids`) |
| Search.RowPath | inference.py:99 | the catalog path a matching triple resolves to |
| Search.SearchHits | inference.py:91-101 | a path is a hit exactly when it exists and is the catalog path of some row whose normalised label or type contains the normalised keyword |
| Search.SearchImages | inference.py:78-102 | the returned list holds exactly the hits, one path per distinct matching triple whose copy exists (so no more than the matching triples), and no path twice when all rows are plain |
| Search.Visit | inference.py:98-101 | one turn of the result loop appends the triple's path exactly when its copy exists, and keeps the collected paths one per visited existing triple |
| Search.FreshPath | inference.py:91-101 | with plain rows, the path of a row not visited yet is not among the paths already collected |
| Search.HitsOfMatching | inference.py:98-101 | paths collected from exactly the matching triples whose copy exists are exactly the hits |
| Search.SearchIgnoresCase | inference.py:81-84 | upper-casing the keyword gives the same hits |
| Search.EmptyKeywordFindsAll | inference.py:94-96 | the empty keyword finds the existing copy of every row |
| Search.NonAsciiKeywordFindsAll | inference.py:82-84 | under the ASCII-only normalisation, a keyword with no ASCII character behaves like the empty keyword; in the program this holds only for characters with no ASCII decomposition |
| Search.RowFoundByOwnLabels | inference.py:94-101 | a row with an existing copy is found by its own label, by its own type, and by its label in upper case |
| Catalog.Commit | inference.py:30-55 | the commit gives the id exactly one row per label, leaves other ids' rows alone, and stores the image at every label's catalog path |
| Catalog.CommitThenSearch | inference.py:94-101 | after committing labels under a type, searching for any committed label, or for the type, finds the copy `<root>/<type>/<label>/<id>.jpg` |
| Catalog.CommitKeepsIndexAndTreeInStep | inference.py:35-54 | after a plain commit, the paths of the id's rows are exactly the id's files under the save root |
| Catalog.RecommitReplaces | inference.py:33-54 | with plain components in the first commit, a second commit of an id replaces the first in both the index and the tree |
| Catalog.CommitIdempotent | inference.py:30-55 | committing the same confirmation twice changes nothing the second time, whatever text the labels hold |
| Frontend.Dedup | frontend.py:40 | the labels come out without duplicates, with the same members as the input, and no more of them |
| Frontend.FirstIndex | frontend.py:40 | the position of a label's first occurrence holds the label, and no earlier position does |
| Frontend.DedupKeepsFirstOccurrenceOrder | frontend.py:40 | the deduplicated labels appear in the order of their first occurrences in the input |
| Frontend.DedupOfDistinct | frontend.py:40 | a list without duplicates is unchanged |
| Frontend.DedupIdempotent | frontend.py:40 | deduplicating twice is deduplicating once |
| Frontend.DedupExample | frontend.py:39-41 | two sinks, a mirror and another sink give one sink followed by one mirror |
| Frontend.StartSession | frontend.py:38-46 | a fresh inference keeps the staged id and type, shows the labels deduplicated in first-occurrence order, leaves the type unconfirmed and maps each label, and nothing else, to false |
| Frontend.ConfirmType | frontend.py:58-60 | the type becomes confirmed; the label flags and the staged result are unchanged |
| Frontend.ChangeType | frontend.py:61-66 | while the type is unconfirmed the selected type replaces it; once confirmed nothing changes; the confirmation state and the rest of the result are never touched |
| Frontend.IsConfirmed | frontend.py:77 | `objects.get(obj, False)`: a label with no entry counts as unconfirmed |
| Frontend.ConfirmObject | frontend.py:77-79 | the label of the chosen row becomes confirmed; every other flag and the whole result are unchanged |
| Frontend.RenameObject | frontend.py:80-87 | a confirmed label or an unchanged text changes nothing; otherwise the old key is removed, the new key is set to false, only the chosen row's label is replaced, and every other flag and row is unchanged |
| Frontend.RenameObjectTracked | frontend.py:83-87 | as the rename, except that the old key is dropped only when no row carries the old label any more, and otherwise keeps its flag; the type flag and the rest of the result are unchanged |
| Frontend.AllConfirmed | frontend.py:90-91 | the completion test: the type is confirmed and no flag in the map is false; its meaning is stated by Frontend.AllConfirmedMeaning |
| Frontend.AllConfirmedMeaning | frontend.py:90-91 | "all confirmed" holds exactly when the type is confirmed and every flag in the map is true; with an empty map only the type counts |
| Frontend.TrackedAllConfirmed | frontend.py:72-91 | when the map's keys are the labels on screen, "all confirmed" means the type and every label on screen are confirmed |
| Frontend.ActionsKeepTracked | frontend.py:43-87 | a fresh session's keys are its labels, and confirming, changing the type or the corrected rename keep them so |
| Frontend.RenameCollisionHidesObject | frontend.py:83-91 | as written, renaming one of two labels onto the other and then renaming it away ends with "all confirmed" while a label on screen was never confirmed |
| Frontend.FinishAsWritten | frontend.py:89-94 | the screen reports completion exactly when everything is confirmed, and the catalog is unchanged either way |
| Frontend.FinishAsWrittenLosesUpload | frontend.py:89-94 | a fully confirmed upload is reported as added, yet searching for its label on an empty catalog finds nothing |
| Frontend.Finish | frontend.py:89-94 | completion is reported exactly when everything is confirmed; the catalog changes only then, and the id's rows become one per confirmed label under the confirmed type |
| Frontend.FinishedUploadIsSearchable | frontend.py:91-92 | once completion is reported, every confirmed label finds the upload's copy |
| Frontend.FinishIsRepeatable | frontend.py:89-92 | finishing again, as every redraw of the screen does, changes nothing, whatever text the labels hold |
| Pages.TotalPages | frontend.py:103-104 | the page count is the least number of ten-result pages that hold every result, and zero only for no results |
| Pages.PageOf | frontend.py:110-114 | a page holds at most ten results, is non-empty exactly when its number is at most the page count, and lists the results from position `(page - 1) * 10` on |
| Pages.Pages | frontend.py:105-111 | every page the page selector can reach, from 1 to the page count |
| Pages.PagesCover | frontend.py:104-114 | read in order, the pages give back exactly the result list |
| Pages.PagesDisjoint | frontend.py:110-114 | two different pages of a duplicate-free result list share no result |

## Left out

- Text.Normalize: does not model Unicode NFKD decomposition; the model drops every non-ASCII
  character, so an accented letter is dropped rather than reduced to its base
  letter. Case folding covers ASCII letters only.
- Search.NonAsciiKeywordFindsAll: follows from the dropped decomposition; in
  the program it holds only for keywords whose characters have no ASCII
  decomposition (an accented letter or a full-width letter decomposes to an
  ASCII letter and is then searched for).
- UUID minting (inference.py:58): the id is a parameter.
- The classifier's confidence score: a float, not used by the logic modelled.
- The recognition models (classify.py, detect.py), including the detector's
  0.20 threshold: they are function parameters.
- SQLite connections, `os.walk`, `os.makedirs`, image encoding and
  `os.path.exists`: the table is a sequence and the disk a map. Directories are
  not modelled, only file paths.
- `init_db` (inference.py:13-25): it creates the root directory and the table,
  which the model takes as given.
- Cleanup of the temporary `<id>.jpg`: the code never removes it, and the
  model does not either.
- Path normalisation: labels and types are joined as written. The properties
  that need one directory level per field require plain components
  (`IsComponent`, `PlainCommit`, `PlainRow`), which exclude a label or type
  that contains `/`, one that is exactly `.` or `..`, and the empty label
  (which the rename box accepts when it is cleared); a label such as `a.b` is
  plain.
- Frontend.ChangeType: `class_names.index(...)` raises when the current type
  is not in the list; the model does not model that exception, and the choice
  is taken from the offered types.
- Streamlit rendering, widgets, the file uploader and the session plumbing of
  frontend.py: the model keeps only the state changes that the buttons and the
  text box make.
- Search.SearchImages: the result order is Python's set iteration order, which
  is unspecified, so the method picks the next row arbitrarily and promises
  nothing about the order.
- Concurrency and partial failure of the commit (old copies deleted, new ones
  not written): every operation is atomic in the model.

## Findings

| source | as written | input that shows it | evidently intended | confidence | as-written member | corrected member |
|---|---|---|---|---|---|---|
| frontend.py:83-91 | renaming a label pops the old key from the confirmation map even when another row still shows that label | detected `[sink, mirror]`; rename row 1 to `sink`; rename row 0 to `tub`; confirm `tub`; confirm the type | "all confirmed" holds only when every label on screen is confirmed | not executed; the trace is proved on the model | Frontend.RenameCollisionHidesObject | Frontend.RenameObjectTracked (with Frontend.ActionsKeepTracked and Frontend.TrackedAllConfirmed) |
| frontend.py:89-94 | when everything is confirmed the screen says the image "has been added to the proper folder" but calls neither `save_image_to_structure` nor `save_to_db` | any upload whose type and labels are all confirmed | completion commits the confirmed type and labels, so the upload becomes searchable | not executed; the gap is proved on the model | Frontend.FinishAsWrittenLosesUpload | Frontend.Finish (with Frontend.FinishedUploadIsSearchable and Frontend.FinishIsRepeatable) |
