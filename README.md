# RPPS portfolio download pipeline — decision logic

`dags/rpps_dag.py` is an Airflow DAG. Each run opens the Brazilian RPPS
statistics page, finds the most recently updated shared folder, downloads
the "Carteira" (portfolio) files and five fixed reports, settles Chrome's
partial downloads, and uploads the resulting CSV files to an Azure blob
container. This project models the four deterministic decisions inside
that pipeline and proves what they promise:

- **Folder resolver** (`folder_resolver.dfy`). Each folder link's stripped
  text is searched for its first `Atualizado_ate_DD_MM_YYYY` token. The link
  is kept only when that token is a date Python's `datetime` accepts. The
  run fails with "Nenhuma pasta encontrada" when no link survives.
  Otherwise it takes the last element of a stable sort by date: the latest
  date, and the last link among ties. `folder_resolver_examples.dfy` holds
  the concrete cases (29/02/2024 accepted; 31/02/2025, 29/02/2023 and year
  0000 skipped; ties; nothing dated).
- **File acquisition** (`file_acquirer.dfy`). The task makes one attempt per
  row whose `data-file` contains "Carteira". Each such attempt goes to the
  first row with the identical name. Then it makes one attempt per
  `ARQUIVOS` prefix, each going to the first row starting with it. Every
  attempt's failure is caught, so all attempts are made. The browser is an
  oracle that says, for attempt n on row k, whether the download menu
  worked.
- **Download settling** (`download_settler.dfy`). The scratch directory is a
  class holding a name-to-bytes map. It is updated in place by a loop over
  one listing. Each `.crdownload` name is renamed to the name with every
  marker removed, or deleted when that name already exists.
- **Upload** (`uploader.dfy`). The candidates are the names whose lower-cased
  form ends in `.csv`, in listing order. With no candidate the task returns
  before any client exists. Otherwise each candidate is written with
  overwrite to `BLOB_FOLDER_PATH/name` in a blob-container class. A failing
  file is skipped, and the final count is the number of candidates.

Shared pieces: `text.dfy` holds Python's `str.strip`, `endswith`,
`replace(p, "")`, ASCII `lower`, XPath `contains`/`starts-with`, and decimal
digits. `batches.dfy` counts the successes of a batch that tolerates
failures. `wrappers.dfy` holds `Option` and `Result`.

The download task only logs each attempt and returns the scratch directory,
so `FileAcquirer.Acquire` returns the attempt outcomes and
`Batches.CountTrue` counts the triggered downloads.

## Model

| member | source | states |
|---|---|---|
| Text.Strip | dags/rpps_dag.py:106 | the result is a contiguous slice of the input after its leading whitespace, everything after it is whitespace, and it neither starts nor ends with whitespace (Python's full whitespace set) |
| Text.Lower | dags/rpps_dag.py:200 | same length, each character lowered if it is an ASCII capital |
| FolderResolver.DaysInMonth | dags/rpps_dag.py:111 | February has 29 days in leap years and 28 otherwise; April, June, September and November have 30; every other month has 31 |
| FolderResolver.FindMatch | dags/rpps_dag.py:105-107 | the position found holds a `Atualizado_ate_DD_MM_YYYY` token and no earlier position from the start does; none found means no position matches |
| FolderResolver.FindMatchIsFirst | dags/rpps_dag.py:105-107 | wherever the leftmost match of the pattern is, the search from the start returns it |
| FolderResolver.FirstTokenDecides | dags/rpps_dag.py:104-116 | a label that starts with the token of a date is accepted with that date exactly when the date is valid, whatever follows, trailing whitespace included; a later valid token cannot rescue it |
| FolderResolver.TokenAtStart | dags/rpps_dag.py:105-111 | the rendered label of a date followed by any text matches at position 0 and the captured groups read back that date |
| FolderResolver.TokenSurvivesStrip | dags/rpps_dag.py:105-106 | `strip()` keeps a token at offset 0 in place, with the date it reads as |
| FolderResolver.LabelRoundTrip | dags/rpps_dag.py:105-111 | parsing the rendered label of any four-digit-year date gives the date back when it is valid, and nothing otherwise |
| FolderResolver.AcceptKeepsFirstValidToken | dags/rpps_dag.py:104-116 | a kept link's entry carries the stripped text, the href and the valid date of the leftmost token of the stripped text; a link is dropped only when its stripped text has no token or its leftmost token is not a valid date |
| FolderResolver.Scan | dags/rpps_dag.py:104-116 | one verdict per link, in link order |
| FolderResolver.PresentMembers | dags/rpps_dag.py:112-114 | a folder is in the dated list exactly when some link's verdict kept it |
| FolderResolver.PresentPrefix | dags/rpps_dag.py:112-114 | one more link appends its folder to the dated list exactly when it is kept |
| FolderResolver.LatestIndex | dags/rpps_dag.py:121 | the chosen folder's date is at least every date, and every later folder's date is strictly earlier |
| FolderResolver.ResolveFolder | dags/rpps_dag.py:101-121 | the loop that strips, searches, validates and appends, followed by the raise or the pick, equals `Resolve` |
| FolderResolver.SelectFailsIffNonePresent | dags/rpps_dag.py:118-119 | selection fails exactly when no verdict kept a folder |
| FolderResolver.SelectLastWins | dags/rpps_dag.py:121 | a successful selection is the folder of some kept link that wins: no kept date is later and every kept link after it is strictly earlier |
| FolderResolver.SelectIsTheWinner | dags/rpps_dag.py:121 | conversely, any winning position is the one selected |
| FolderResolver.ResolveFailsIffNoneAccepted | dags/rpps_dag.py:118-119 | resolution fails with NoFolderFound exactly when no link's label yields a valid date |
| FolderResolver.ResolveLastWins | dags/rpps_dag.py:121 | the resolved folder comes from a link w whose date is the maximum of all accepted dates, and every accepted link after w is strictly earlier |
| FolderResolver.ResolveIsTheWinner | dags/rpps_dag.py:121 | any link with the maximum date and no later link of equal date is the one resolved |
| FolderResolver.InsertByDate | dags/rpps_dag.py:121 | insertion into the stable sort adds exactly the element (multiset) |
| FolderResolver.InsertByDateSorted | dags/rpps_dag.py:121 | insertion keeps the list sorted by date |
| FolderResolver.SortByDate | dags/rpps_dag.py:121 | the stable sort is a permutation of its input |
| FolderResolver.SortByDateSorted | dags/rpps_dag.py:121 | the stable sort's result is sorted by date |
| FolderResolver.InsertByDateKeepsTies | dags/rpps_dag.py:121 | inserting x into a sorted list puts it after every entry of its own date, and keeps their order |
| FolderResolver.SortByDateStable | dags/rpps_dag.py:121 | the sort is stable: for every date, the entries of that date appear in the result in input order |
| FolderResolver.InsertByDateLast | dags/rpps_dag.py:121 | inserting x into a sorted list makes x last when no element is later, and keeps the old last element otherwise |
| FolderResolver.SortByDateLastIsLatest | dags/rpps_dag.py:121 | the last element of the stable sort is the latest folder, the last one among ties |
| FolderResolver.ResolveIsLastOfStableSort | dags/rpps_dag.py:121 | the resolved folder is exactly `sorted(dated, key=date)[-1]` |
| FolderResolverExamples.LeapDayIsAccepted | dags/rpps_dag.py:105-114 | the label of 29 February 2024 (`Atualizado_ate_29_02_2024`) yields that date |
| FolderResolverExamples.FebruaryThirtyFirstIsSkipped | dags/rpps_dag.py:110-116 | the label of 31 February 2025 (`Atualizado_ate_31_02_2025`) is skipped without error |
| FolderResolverExamples.NonLeapDayIsSkipped | dags/rpps_dag.py:110-116 | the label of 29 February 2023 (`Atualizado_ate_29_02_2023`) is skipped |
| FolderResolverExamples.YearZeroIsSkipped | dags/rpps_dag.py:110-116 | year 0000 is skipped |
| FolderResolverExamples.OnlyFirstTokenCounts | dags/rpps_dag.py:105-111 | an invalid first token followed by a valid one still excludes the label |
| FolderResolverExamples.NoTokenNoDate | dags/rpps_dag.py:108 | a label without a token yields no date |
| FolderResolverExamples.NewYearIsAccepted | dags/rpps_dag.py:105-114 | the label of 1 January 2025 (`Atualizado_ate_01_01_2025`) yields that date |
| FolderResolverExamples.MarchTenthIsAccepted | dags/rpps_dag.py:105-114 | the label of 10 March 2024 (`Atualizado_ate_10_03_2024`) yields that date |
| FolderResolverExamples.JuneFifteenthIsAccepted | dags/rpps_dag.py:105-114 | the label of 15 June 2024 (`Atualizado_ate_15_06_2024`) yields that date |
| FolderResolverExamples.LatestOfTwo | dags/rpps_dag.py:104-121 | of an older, a newer and an undated link the newer one is resolved |
| FolderResolverExamples.MiddleOfThreeWins | dags/rpps_dag.py:118-121 | among verdicts older, newer, skipped, the newer folder is the latest and no later entry ties it |
| FolderResolverExamples.InvalidDateExcluded | dags/rpps_dag.py:110-121 | a link with an impossible date never wins over a valid one |
| FolderResolverExamples.TieGoesToLastLink | dags/rpps_dag.py:121 | of two links with the same date, the second is resolved |
| FolderResolverExamples.NothingDated | dags/rpps_dag.py:118-119 | a single undated link makes the run fail with NoFolderFound |
| FileAcquirer.FirstRow | dags/rpps_dag.py:133 | `find_element` returns the first row the XPath selects; none found means no row matches |
| FileAcquirer.CarteiraRowsAppend | dags/rpps_dag.py:160-162 | the Carteira rows keep document order (the filter distributes over concatenation) |
| FileAcquirer.CarteiraRowsMembers | dags/rpps_dag.py:160-162 | the Carteira rows are exactly the rows whose data-file contains "Carteira", each as often as it occurs on the page |
| FileAcquirer.BaixarUsesFirstSelected | dags/rpps_dag.py:131-158 | an attempt fails with RowNotFound exactly when its XPath selects no row; a download names the first row the XPath selects and happens when the UI triggers there; a UI failure is the failure of that first row |
| FileAcquirer.Outcomes | dags/rpps_dag.py:165-169 | one outcome per planned query |
| FileAcquirer.DownloadRows | dags/rpps_dag.py:160-169 | the two loops produce exactly the planned outcomes, in order |
| FileAcquirer.AttemptCount | dags/rpps_dag.py:165-169 | there are exactly (number of Carteira rows) + 5 attempts |
| FileAcquirer.CarteiraAttemptHitsFirstCopy | dags/rpps_dag.py:165-166 | the n-th Carteira attempt targets the first row with that identical identifier, and its outcome depends only on the UI there |
| FileAcquirer.PrefixAttemptHitsFirstMatch | dags/rpps_dag.py:168-169 | the attempt for prefix j fails with RowNotFound exactly when no row starts with it; otherwise it works on the first row that starts with it, a download names that row, and its outcome is what the UI does there |
| FileAcquirer.OneFailingAttempt | dags/rpps_dag.py:157-158 | with exactly one failing attempt, all others are still made and N - 1 of the N succeed |
| FileAcquirer.AcquireFiles | dags/rpps_dag.py:101-169 | the download task equals `Acquire`: resolve, open the folder, wait for rows, run both loops |
| FileAcquirer.NoFolderNoDownloads | dags/rpps_dag.py:118-119 | the task stops with NoFolderFound, before any download, exactly when no link is dated |
| FileAcquirer.AcquireUsesSelectedFolder | dags/rpps_dag.py:121-169 | a successful task ran over the rows of the resolved folder: its attempts are exactly `Outcomes` of those rows, |Carteira rows| + 5 of them |
| DownloadSettler.FinalNameOfDownload | dags/rpps_dag.py:180 | `x + ".crdownload"` with no marker inside x settles as x |
| DownloadSettler.FinalNameDiffers | dags/rpps_dag.py:175-180 | a partial name's final name is strictly shorter, so the rename always moves the entry |
| DownloadSettler.SettleOne | dags/rpps_dag.py:175-184 | a non-partial or absent name changes nothing; a partial name whose final name exists (an entry, or "", "." or "..", which every directory has) is removed and nothing else changes; otherwise its content moves to the final name |
| DownloadSettler.ScratchDir.Settle | dags/rpps_dag.py:174-186 | the loop over the listing leaves the directory equal to `Settled` of the old one, and the count is the number of entries left |
| DownloadSettler.ScratchDir.SettleEntry | dags/rpps_dag.py:175-184 | one listed entry is handled as `SettleOne` says: a name ending in the in-progress marker is renamed to its final name, or removed when that name exists; any other entry is left alone |
| DownloadSettler.SettledKeepsCompleteFiles | dags/rpps_dag.py:175 | a non-partial entry survives with its content, whatever the listing order |
| DownloadSettler.SettledKeepsUnlisted | dags/rpps_dag.py:174 | an entry the listing does not name survives with its content |
| DownloadSettler.SettledNamesOnly | dags/rpps_dag.py:174-184 | every entry afterwards was there before or is the final name of a listed partial entry |
| DownloadSettler.SettledClearsMarkers | dags/rpps_dag.py:174-184 | when no final name is itself partial, every listed partial entry is gone and its final name exists, as an entry unless it is "", "." or ".." |
| DownloadSettler.TargetAbsent | dags/rpps_dag.py:174-184 | a name that was not there and that no listed partial name settles onto is still absent after the loop |
| DownloadSettler.SettledMovesContent | dags/rpps_dag.py:174-184 | a renamed download keeps its bytes: when its final name was free and no other listed partial name settles onto it, that name holds the partial file's content after the loop |
| DownloadSettler.PartialSettlingOntoPartial | dags/rpps_dag.py:174-184 | a partial name that settles onto an earlier-listed partial name leaves its content under that partial name |
| DownloadSettler.BareMarkerIsRemoved | dags/rpps_dag.py:177-184 | a file named just `.crdownload` would be renamed onto the directory itself, which exists, so it is removed and nothing replaces it |
| DownloadSettler.MarkerCanSurvive | dags/rpps_dag.py:174-184 | `f.crdow.crdownloadnload.crdownload` turns into the partial name `f.crdownload` after that one was visited, so a partial entry remains |
| DownloadSettler.TwoMarkers | dags/rpps_dag.py:180 | two markers after two short names are both removed |
| Uploader.CsvFiles | dags/rpps_dag.py:199-201 | a name is a candidate exactly when it is listed and its lower-cased form ends with `.csv` |
| Uploader.CsvFilesAppend | dags/rpps_dag.py:199-201 | the candidates keep listing order |
| Uploader.CsvFilesDistinct | dags/rpps_dag.py:199-201 | distinct listed names give distinct candidates |
| Uploader.PartialIsNotCsv | dags/rpps_dag.py:199-201 | a name still ending in `.crdownload` is never a candidate |
| Uploader.UpperCaseExtensionCounts | dags/rpps_dag.py:200 | `RPPS.CSV` is a candidate |
| Uploader.BlobPathInjective | dags/rpps_dag.py:220 | distinct files of one folder go to distinct blobs |
| Uploader.UploadsMeaning | dags/rpps_dag.py:217-231 | an upload succeeds only for a file still in the directory, and two uploads share a blob only when they send the same file |
| Uploader.Report | dags/rpps_dag.py:199-233 | the early return happens exactly when no listed name is a CSV; otherwise every candidate is tried and the reported count is the number of candidates |
| Uploader.OneFailedUpload | dags/rpps_dag.py:229-233 | with one failed upload among N, N - 1 succeed and N is still reported |
| Uploader.PublishIsOverlay | dags/rpps_dag.py:227 | overwriting uploads act as one overlay of what they write, whatever the container held |
| Uploader.RerunIsIdempotent | dags/rpps_dag.py:227 | running the same uploads again leaves the container as after the first run |
| Uploader.PublishLeavesOthers | dags/rpps_dag.py:217-231 | a blob no successful upload names keeps its content, or stays absent |
| Uploader.PublishLastWriteWins | dags/rpps_dag.py:226-227 | a successful upload not overwritten later leaves the file's bytes in its blob |
| Uploader.UploadsLand | dags/rpps_dag.py:217-231 | for a listing of distinct names, every successful upload's blob holds that file's bytes and every other blob's presence is unchanged |
| Uploader.BlobContainer.UploadToAzure | dags/rpps_dag.py:195-233 | the task's report equals `Report`, the container afterwards equals `Publish` of the old one, and the early return leaves it unchanged |

## Left out

- Selenium: driver setup, navigation, CSS/XPath lookups beyond row
  selection, scrolling, the JavaScript click fallback and every `time.sleep`
  or `WebDriverWait`. A download attempt is an oracle outcome, and the wait
  for file rows is a `NoFileRows` error when the folder shows none.
- Azure: opening the file, `get_blob_client` and `upload_blob` inside the
  per-file `try` are an oracle that says whether the upload of file i to a
  blob path succeeded. A failed upload is taken to leave its blob untouched.
- Task-level exceptions outside the per-file `try` blocks abort the whole
  task and are not modelled. `ClientSecretCredential` and `BlobServiceClient`
  are built once, before the loop, so a failure there stops the upload task
  before any file is tried; `Uploader.Report` assumes they succeed. Likewise
  `linha.get_attribute('data-file')` is read outside `baixar`'s `try`, so a
  stale Carteira row aborts the download task; `FileAcquirer.Outcomes`
  assumes every row can be read.
- Airflow: decorators, schedule, retries, task wiring and `Variable.get`.
  `BLOB_FOLDER_PATH` is a parameter; its default is `Uploader.DefaultBlobFolder`.
- The setup and cleanup tasks (`makedirs`, `rmtree`) and the timestamped
  `log`; the model reports outcomes instead of log lines.
- `os.listdir` order is unspecified, so the listing is a parameter. The
  settle and upload results are stated for every order.
- DownloadSettler.ScratchDir.Settle: uses the code's written collision rule
  (an existing target means the partial file is deleted). On POSIX
  `os.rename` silently replaces an existing file instead, and a target that
  is the directory itself, `.` or `..` raises an error other than
  `FileExistsError`, which aborts the task.
- DownloadSettler.ScratchDir.Settle: the directory is assumed not to change
  while the loop runs, although the browser is still open until the
  `finally`. If Chrome finishes or removes a `.crdownload` file after the
  listing, `os.rename` raises `FileNotFoundError`, which is not caught and
  aborts the task; the model instead treats an absent name as a no-op.
  Any other error from `os.rename` or `os.remove` likewise aborts the task
  and is not modelled.
- Python's `\d`, `int()` and `str.lower()` accept all of Unicode; the model
  uses ASCII digits and ASCII case only.
- XPath quoting: an identifier containing `'` breaks the XPath the code
  builds. The model selects rows by identifier directly.
- The display of the chosen folder's name (`log(f"Pasta: ...")`) and the
  navigation to its href are not modelled beyond the href being used.
