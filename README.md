# Offense-record pagination, linking, and the file-drop page

This project models two parts of the petition generator.

**Pagination and linking of offense records** (modules `Paginator` and
`Linker`). A petition form has room for a fixed number of offense records.
The petition's ordered offense records are split positionally:
- the first `initialPageSize` records (default 10) stay on the petition itself;
- the rest are cut into consecutive groups of `attachmentPageSize` records
  (default 20), one group per attachment form; only the last group may be
  shorter.

A requested page size that is zero or negative falls back to its default.
Linking walks these pages in order. It links the primary page to the
petition. For each group it creates the next attachment and links that
group's records to it.

`PetitionLinks` is a class. It holds the owner map (record to petition or
attachment number) and the attachment counter, and its `Link` method
updates both in place.

Proved:
- the petition's page followed by every group gives back the records, in order;
- the group count is ceil((N - P) / A) and the last group holds the remainder;
- pages are disjoint and placement is purely positional: record i is on the
  petition when i < P, otherwise it is element (i - P) % A of group
  (i - P) / A;
- after `Link`, the petition reads back exactly its page and attachment
  `old count + k + 1` reads back exactly group k, so the petition's records
  followed by each new attachment's records are all the records, in order;
- the scenarios of 10, 11 and 35 records, and the boundary case where the
  10th and 11th records go to different forms.

**The home page's file staging** (module `HomePage`). The class `HomePage`
holds the staged files, the drag errors and the drag warnings. A drop first
shows the drop zone's own errors and warnings. Then:
- a drop that would bring the count above `MaxFiles` (8) is refused with
  "Maximum file limit exceeded" (exactly 8 is allowed);
- a drop containing a file named like a staged file is refused with
  `Cannot upload duplicate file "<name>"`. When several staged files
  collide, the message names the dropped file matching the last colliding
  staged file, in staging order;
- otherwise the dropped files are added to a copy of the staged set.

Removing a file deletes exactly that file. The staged set never repeats a
file and never exceeds 8 files.

## Model

| member | source | states |
|---|---|---|
| Paginator.NewPaginator | dear_petition/petition/etl/tests/test_petition_offenses.py:49-62 | a positive requested page size is kept; a zero or negative one becomes 10 (petition page) or 20 (attachment page) |
| Paginator.DefaultPaginator | dear_petition/petition/etl/tests/test_petition_offenses.py:44-46 | a petition's own paginator uses sizes 10 and 20 over its records |
| Paginator.SizeDefaulting | dear_petition/petition/etl/tests/test_petition_offenses.py:49-62 | sizes 10, 0 and -10 give 10, 10, 10 for the petition page and 10, 20, 20 for attachment pages |
| Paginator.OffenseRecordPaginator.PetitionOffenseRecords | dear_petition/petition/etl/tests/test_petition_offenses.py:65-66 | the petition keeps min(N, P) records, and they are the first ones in order |
| Paginator.OffenseRecordPaginator.AttachmentOffenseRecords | dear_petition/petition/etl/tests/test_petition_offenses.py:69-89 | there are no groups exactly when N <= P; every group is non-empty and at most A long, and all but the last are exactly A long |
| Paginator.Chunks | dear_petition/petition/etl/tests/test_petition_offenses.py:82-89 | chunking gives non-empty groups of at most `size`, all but the last full, and none exactly for the empty sequence |
| Paginator.ChunksFlatten | dear_petition/petition/etl/tests/test_petition_offenses.py:82-89 | concatenating the chunks gives back the chunked sequence |
| Paginator.ChunkCount | dear_petition/petition/etl/tests/test_petition_offenses.py:82-89 | the number of chunks m satisfies Offset(m - 1, size) < len(s) <= Offset(m, size), len(s) being the length of s and Offset(k, size) the start of chunk k, proved equal to k * size by OffsetIsProduct |
| Paginator.LastChunkHoldsRemainder | dear_petition/petition/etl/tests/test_petition_offenses.py:86-89 | the last chunk holds the length of s minus the full chunks before it |
| Paginator.PartitionRoundTrip | dear_petition/petition/etl/tests/test_petition_offenses.py:65-89 | the petition page followed by every group, in order, equals the records: nothing lost, repeated or reordered |
| Paginator.GroupCount | dear_petition/petition/etl/tests/test_petition_offenses.py:69-89 | no groups when N <= P; otherwise (g - 1) * A < N - P <= g * A for g groups, and the last holds (N - P) - (g - 1) * A |
| Paginator.GroupAt | dear_petition/petition/etl/tests/test_petition_offenses.py:82-89 | group k is the window of records from P + Offset(k, A) to min(P + Offset(k, A) + A, N), Offset(k, A) being proved equal to k * A by OffsetIsProduct |
| Paginator.GroupEnd | dear_petition/petition/etl/tests/test_petition_offenses.py:82-89 | group k ends at P + Offset(k + 1, A), where the next begins (Offset(k, A) = k * A by OffsetIsProduct), and the last group ends at the last record |
| Paginator.OffenseRecordPaginator.Placement | dear_petition/petition/etl/tests/test_petition_offenses.py:117-136 | a record is on the petition page exactly when its position is below P; otherwise its attachment page k is the one whose window P + Offset(k, A) to P + Offset(k, A) + A holds the position |
| Paginator.PlacementIsPositional | dear_petition/petition/etl/tests/test_petition_offenses.py:117-136 | record i is element i of the petition page when i < P, otherwise element (i - P) % A of group (i - P) / A |
| Paginator.PlacementOfGroup | dear_petition/petition/etl/tests/test_petition_offenses.py:117-136 | a record is placed on attachment page k exactly when its position lies inside group k, from P + Offset(k, A) (= P + k * A by OffsetIsProduct) to the group's end |
| Paginator.TenRecords | dear_petition/petition/etl/tests/test_petition_offenses.py:69-71 | with ten records the petition holds 10 and there are no groups |
| Paginator.ElevenRecords | dear_petition/petition/etl/tests/test_petition_offenses.py:74-79 | with eleven records the petition holds 10 and the one group is the 11th record |
| Paginator.ThirtyFiveRecords | dear_petition/petition/etl/tests/test_petition_offenses.py:82-89 | with 35 records there are two groups: records 11-30 and records 31-35 |
| Linker.OwnedBy | dear_petition/petition/etl/tests/test_petition_offenses.py:92-94 | the records read back for an owner are exactly the records linked to it (membership both ways) and never more than the records; their order is stated by OwnedWindow |
| Linker.OwnedWindow | dear_petition/petition/etl/tests/test_petition_offenses.py:92-114 | when the records linked to an owner are exactly the positions lo to hi - 1, reading back that owner gives those records in record order |
| Linker.LinkedRoundTrip | dear_petition/petition/etl/tests/test_petition_offenses.py:92-114 | after linking, what the petition reads back followed by what each new attachment reads back, in attachment order, is all the records: nothing lost, repeated or reordered |
| Linker.TwoGroupsRoundTrip | dear_petition/petition/etl/tests/test_petition_offenses.py:106-114 | with two groups, the petition, attachment base + 1 and attachment base + 2 read back all the records in order |
| Linker.ThirtyFiveReadBack | dear_petition/petition/etl/tests/test_petition_offenses.py:106-114 | after linking 35 records there are two groups; attachments 1 and 2 read back 20 and 5 records, and with the petition's page they give back all 35 in order |
| Linker.PrimaryApart | dear_petition/petition/etl/tests/test_petition_offenses.py:92-114 | for distinct records, no record on the petition page is in any group |
| Linker.GroupsApart | dear_petition/petition/etl/tests/test_petition_offenses.py:92-114 | for distinct records, no record of one group is in a later group |
| Linker.LinkedPages | dear_petition/petition/etl/tests/test_petition_offenses.py:92-114 | once every record is linked by its placement, the petition reads back its page, attachment base + k + 1 reads back group k, and no other attachment number owns a record |
| Linker.GroupReadsBack | dear_petition/petition/etl/tests/test_petition_offenses.py:106-114 | under placement linking, attachment base + k + 1 reads back exactly group k |
| Linker.OtherAttachmentEmpty | dear_petition/petition/etl/tests/test_petition_offenses.py:92-95 | under placement linking, an attachment number given to no group owns no record |
| Linker.PetitionLinks.constructor | dear_petition/petition/etl/tests/test_petition_offenses.py:92-95 | a petition starts with no links and no attachments |
| Linker.PetitionLinks.OffenseRecords | dear_petition/petition/etl/tests/test_petition_offenses.py:92-94 | the petition's records are exactly the given records linked to the petition |
| Linker.PetitionLinks.AttachmentRecords | dear_petition/petition/etl/tests/test_petition_offenses.py:98-103 | an attachment's records are exactly the given records linked to that attachment number |
| Linker.PetitionLinks.LinkRecords | dear_petition/petition/etl/tests/test_petition_offenses.py:92-94 | every record of the group is linked to the owner; every other link is unchanged; the attachment count is unchanged |
| Linker.PetitionLinks.Link | dear_petition/petition/etl/tests/test_petition_offenses.py:92-114 | one new attachment per group; every record is linked to the owner its position puts it on; links of other records are kept; the petition and each new attachment read back their page |
| Linker.PetitionLinks.LinkAttachments | dear_petition/petition/etl/tests/test_petition_offenses.py:106-114 | group g becomes attachment old count + g + 1, and the count grows by the number of groups |
| Linker.LinkTenRecords | dear_petition/petition/etl/tests/test_petition_offenses.py:92-95 | ten records: the petition holds 10 and no attachment exists |
| Linker.LinkElevenRecords | dear_petition/petition/etl/tests/test_petition_offenses.py:98-103 | eleven records: one attachment, holding one record |
| Linker.LinkThirtyFiveRecords | dear_petition/petition/etl/tests/test_petition_offenses.py:106-114 | 35 records: two attachments, holding 20 and 5 records; the petition's records then those of attachments 1 and 2 are the 35 records in order |
| Linker.LinkAcrossBoundary | dear_petition/petition/etl/tests/test_petition_offenses.py:117-136 | the 10th record is on the petition and not on attachment 1, and the 11th is on attachment 1 and not on the petition |
| HomePage.DuplicateError | frontend/src/components/pages/HomePage/HomePage.js:48 | the duplicate message is 31 characters longer than the file name, and the name reads back from between its quotes, so different names give different messages |
| HomePage.Add | frontend/src/components/pages/HomePage/HomePage.js:31 | adding a file keeps the staged files first and in order, adds the file only if absent, and keeps the set free of repeats |
| HomePage.AddAll | frontend/src/components/pages/HomePage/HomePage.js:29-33 | the merged set holds exactly the staged and the new files, keeps the staged ones first in order, has no repeats, and grows by at most the number of new files |
| HomePage.Delete | frontend/src/components/pages/HomePage/HomePage.js:62-64 | deleting removes exactly that file, keeps the set free of repeats, and shrinks it by one exactly when the file was staged |
| HomePage.FindByName | frontend/src/components/pages/HomePage/HomePage.js:46 | nothing is found exactly when no dropped file has the name; a found file is a dropped file with that name |
| HomePage.FindByNameIsFirst | frontend/src/components/pages/HomePage/HomePage.js:46 | the file found is the first dropped file with the name |
| HomePage.LastDuplicate | frontend/src/components/pages/HomePage/HomePage.js:44-51 | no duplicate is reported exactly when no staged file's name matches a dropped file; a reported duplicate is a dropped file |
| HomePage.LastDuplicateIsLast | frontend/src/components/pages/HomePage/HomePage.js:45-50 | the reported duplicate comes from the last colliding staged file: later collisions overwrite earlier ones |
| HomePage.DuplicateIffSharedName | frontend/src/components/pages/HomePage/HomePage.js:44-52 | a drop is refused for a duplicate exactly when some staged file and some dropped file share a name |
| HomePage.SameNameWithinDropAccepted | frontend/src/components/pages/HomePage/HomePage.js:42-52 | when no staged file has their name, two dropped files sharing a name are not reported as duplicates of each other, and when neither is staged both are added after the staged files, in drop order |
| HomePage.NoNamesakeStaged | frontend/src/components/pages/HomePage/HomePage.js:44-51 | a drop whose files all carry a name no staged file has holds no duplicate |
| HomePage.AddTwoFresh | frontend/src/components/pages/HomePage/HomePage.js:29-33 | two distinct new files are staged after the staged files, in drop order |
| HomePage.HomePage.constructor | frontend/src/components/pages/HomePage/HomePage.js:23-25 | the page starts with no staged files and no messages |
| HomePage.HomePage.MergeFileSets | frontend/src/components/pages/HomePage/HomePage.js:29-33 | the copy holds exactly the staged and the new files, as the set after adding each new file in turn; the staged set is untouched |
| HomePage.HomePage.HandleDrop | frontend/src/components/pages/HomePage/HomePage.js:35-53 | warnings become the drop's warnings; over 8 files: files unchanged and the limit error; else a duplicate: files unchanged and the duplicate error for the last collision; else the files become the merge and errors the drop's own; the set stays repeat-free and within 8 |
| HomePage.HomePage.HandleRemoveFile | frontend/src/components/pages/HomePage/HomePage.js:55-65 | the staged files lose exactly that file, the messages are unchanged, and the set stays repeat-free and within 8 |

## Left out

- The code of dear_petition/petition/etl/paginator.py and dear_petition/petition/etl/load.py is not part of this model and is not followed line by line. The paginator and the linker are modelled from the behaviour their tests pin down: positional pages of 10 and then 20, size defaulting, and one new attachment per overflow group in order.
- Record retrieval is not modelled: the database queries, the ordering of `get_all_offense_records`, the dismissed-disposition selection and the test factories. The records arrive as an ordered sequence, and pagination is positional in that order.
- Attachments as database rows are not modelled. An attachment is its number, and the number gives the creation order that `order_by("pk")` recovers. Other fields of petitions and attachments, and form rendering, are left out.
- Linker.PetitionLinks.Link: it requires the records to be distinct, which holds for database rows (one primary key each). It does not say what happens to attachments made by an earlier run: new attachments are numbered after the existing count, and links of records not in the list are kept.
- HomePage rendering, the confirmation modal, `handlePreparePetitions` (a timer and navigation) and the clearing of the file input's value (a DOM side effect) are not modelled.
- MIME-type and file-size validation (`ALLOWED_MIME_TYPES`, `MAX_FILE_SIZE`) happen inside the drop-zone component. They reach this model only as the drop's `errors` and `warnings`.
- React state setters are modelled as immediate assignments in call order. Within one handler the last call wins, which is the state the page renders next.
- The JavaScript `Set` of staged files is a sequence without repeats, in insertion order. A browser `File` object's identity is its `id` field.
- The initial `undefined` drag errors and warnings are modelled as empty lists.
