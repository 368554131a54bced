# biorad: a Dafny model of the HbA1c report pipeline

The system reads a chromatography report (a PDF from a Bio-Rad HbA1c
analyser), pulls the peak table out of the page text, stores its rows in a
SQL Server results table, cuts the chromatogram figure out of the page
image, and shows the stored results on a Streamlit dashboard filtered by
request date and sample id. This project models the logic of that
pipeline as pure Dafny functions and proves what each step promises:

- `PdfExtractor`: the `findall` scan of the peak-row regular expression over the page text, and the five-column table built from it;
- `SaveTable`: `save_table_to_db`, which renames the columns, clears the placeholders, coerces the numbers, runs one INSERT per row and commits;
- `FigureCrop`: `save_figure`, which picks the first detected figure, pads it to the left, crops it, reverses the channels and names it `_graph.jpg`;
- `Config`: `read_config`, covering the configparser lookups, the errors they raise and the choice of authentication options;
- `DbConnection`: `connect_to_database`, covering the ODBC connection string for SQL or Windows authentication and the connection attempt;
- `FetchData`: `fetch_data_from_db`, where each fetched row is zipped with the column names into a dictionary;
- `Dashboard`: the module-level logic of `app2.py`:
  - the upload path and its gate;
  - date parsing;
  - the default and chosen date range;
  - the inclusive date filter;
  - the distinct sample ids;
  - the selected sample's details and results;
  - the chromatogram path.

The support modules are:

- `Basics`: Option and Result, and substring search.
- `Seqs`: order-preserving selection and `unique`.
- `Numbers`: the subset of numeric text that the peak-row pattern can produce, which `pd.to_numeric` converts.
- `Tables`: a DataFrame with labelled columns.
- `Paths`: POSIX `os.path.join` and `str.replace`.

Everything the code asks of its environment becomes an input:

- whether a file exists;
- which directories can be created;
- the parsed ini file;
- whether the ODBC driver accepts a connection string;
- where the database driver raises;
- the layout model's detections and the decoded image;
- the rows the query returns;
- how `pd.to_datetime` parses a cell;
- the values of the dashboard's widgets.

Where app2.py's calls and the functions they call disagree, the model
follows the functions:

- `extract_table_from_text` returns only the table (or None), not a sample id and a report date.
- The dashboard's upload handler unpacks its result into three names and calls `save_table_to_db` with four arguments, while that function takes two. So the upload path always ends in its exception handler (see Findings).
- Option names are looked up through configparser's lower-case folding, so `UPLOAD_DIR` finds `upload_dir`.

## Model

| member | source | states |
|---|---|---|
| Numbers.ParseNumber | sql_queries/save_table_to_db.py:36 | a cell's text converts to a number exactly when it is optionally signed `\d+` or `\d+\.\d+` text |
| Tables.ColumnIndex | sql_queries/save_table_to_db.py:36 | a column lookup by label succeeds exactly when the label occurs once, and returns the position of that occurrence |
| Tables.ToNumeric | sql_queries/save_table_to_db.py:36-39 | after coercion a cell is a number or NULL; numbers stay, text becomes a number exactly when it is numeric text, NULL stays NULL |
| Tables.CoerceColumn | sql_queries/save_table_to_db.py:36 | coercing a column fails exactly when its label does not occur once; otherwise only that column's cells are converted |
| Seqs.Filter | app2.py:110-113 | boolean-mask selection keeps exactly the elements satisfying the mask, each taken from the input |
| Seqs.FilterConcat | app2.py:110-113 | selection keeps relative order: selecting from a concatenation is the concatenation of the selections |
| Seqs.DedupFirstAppearance | app2.py:116 | the distinct values are listed in the order of their first appearance |
| Seqs.UniqueInOrder | app2.py:116 | a single pass with a set of seen values computes the distinct values in first-appearance order, with no duplicates and nothing lost |
| Paths.PathJoin | utils/utils.py:19 | joining with an absolute second part gives that part; otherwise the result starts with the first part, ends with the second, and has a separator between them exactly when the first part is non-empty and does not already end in one |
| Paths.ReplaceAbsent | utils/utils.py:43 | replacing a substring that does not occur leaves the text unchanged |
| Paths.GraphName | utils/utils.py:43 | a page image `stem.jpg` with no other `.jpg` in its stem is renamed `stem_graph.jpg` |
| PdfExtractor.MatchAtSound | utils/pdf_extractor.py:23 | every match the matcher reports is a match of the peak-row pattern: a peak name, whitespace, two `---`-or-decimal fields, a decimal retention time and a digit run, separated by whitespace |
| PdfExtractor.MatchAtComplete | utils/pdf_extractor.py:23 | wherever the pattern matches, the matcher finds that match with the final digit run taken greedily, so no backtracking is ever needed |
| PdfExtractor.FindAllIsScan | utils/pdf_extractor.py:24 | the scan reports non-overlapping matches in text order, each the match at its start, and every position where the pattern matches lies inside a reported match |
| PdfExtractor.ScanUnique | utils/pdf_extractor.py:24 | the scan is the only sequence of matches with those properties |
| PdfExtractor.ExtractTable | utils/pdf_extractor.py:21-28 | a returned table has the five peak-table columns, every row one cell per column, and at least one row |
| PdfExtractor.ExtractRows | utils/pdf_extractor.py:24-28 | the table has one row per reported match, in text order, holding the five captured strings; None when there is no match |
| PdfExtractor.ExtractNoneIffNoMatch | utils/pdf_extractor.py:26-28 | the extractor returns None exactly when the pattern matches at no position of the text |
| PdfExtractor.ExtractRowsArePeakRows | utils/pdf_extractor.py:23-27 | every extracted row holds a known peak name, two `---`-or-decimal texts, a decimal and a digit run |
| PdfExtractor.MatchMidWordAcrossLines | utils/pdf_extractor.py:23 | the unanchored pattern matches a row starting inside a word and spread over several lines |
| SaveTable.CoerceAll | sql_queries/save_table_to_db.py:34-36 | coercing the listed columns fails exactly when one of them does not occur once; otherwise exactly the listed columns' cells are converted to numbers |
| SaveTable.Normalise | sql_queries/save_table_to_db.py:22-39 | the renamed, cleared and coerced frame exists exactly when every numeric column occurs once after renaming, keeps the renamed labels and one row per input row |
| SaveTable.Indices | sql_queries/save_table_to_db.py:49-53 | the INSERT's labels resolve exactly when each occurs once, and each resolves to the position holding it |
| SaveTable.Executed | sql_queries/save_table_to_db.py:42-54 | the insert loop runs over every row unless a label lookup fails, which stops it before the first row, or the INSERT of row k raises, which stops it after exactly k rows |
| SaveTable.SaveAs | sql_queries/save_table_to_db.py:11-65 | without a connection, nothing happens and the call returns False; otherwise the connection is always closed, and True is returned exactly when the transaction commits, which needs every row inserted and no driver fault; a cursor fault, a failed normalisation or a failed label lookup leaves no insert, a failing INSERT at row k leaves exactly the k earlier inserts, and a failing commit follows a full set of inserts |
| SaveTable.SaveTableToDb | sql_queries/save_table_to_db.py:11-58 | an error reading the configuration escapes the call; otherwise nothing is inserted or committed unless the driver accepted the configured connection string, the connection is closed whenever one was made, and the outcome is that of the save on that connection: True exactly when the connection was accepted, no driver fault occurs, the numeric columns normalise and every row is inserted and committed |
| SaveTable.RenameTableColumns | sql_queries/save_table_to_db.py:22-28 | the extracted labels become the INSERT's columns, position for position |
| SaveTable.SaveTableOutcome | sql_queries/save_table_to_db.py:42-58 | an extracted table is saved unless the driver raises; an INSERT raising at row k leaves exactly the k earlier inserts |
| SaveTable.SaveTableValues | sql_queries/save_table_to_db.py:31-54 | each insert stores its row's peak name and its measurements as numbers, or NULL for `---`, empty, missing or non-numeric text |
| SaveTable.SaveExtracted | sql_queries/save_table_to_db.py:11-58 | saving a table read from page text stores, per row, the peak name, NGSP and area as their decimal value or NULL for `---`, and the retention time and peak area as their values |
| FigureCrop.FirstFigure | utils/utils.py:34 | the chosen element is the first in detection order whose type is Figure; None exactly when there is none |
| FigureCrop.PadLeft | utils/utils.py:37-38 | the left edge moves 50 pixels outwards but never before column 0 |
| FigureCrop.SliceBound | utils/utils.py:40 | a slice bound resolves as Python resolves it: negative bounds count from the end, and bounds are clamped to the axis |
| FigureCrop.Crop | utils/utils.py:40 | the crop holds exactly the pixels of the resolved row and column ranges, at their offsets; inside the image it is (y2-y1) by (x2-x1) |
| FigureCrop.ReverseChannelsTwice | utils/utils.py:44 | reversing the channel order twice gives back the image |
| FigureCrop.Written | utils/utils.py:40-44 | the written pixels are the cropped box's pixels with their channels reversed, taken from within the page image |
| FigureCrop.SaveFigure | utils/utils.py:15-54 | a missing page image raises FileNotFoundError naming the joined path; without a model nothing is written; a written figure comes from the first Figure element, is non-empty, is named `_graph.jpg`, and holds the padded crop with reversed channels |
| FigureCrop.SavedFigureSize | utils/utils.py:36-44 | a figure box inside the page gives a written figure of (y2-y1) rows by (x2-max(0,x1-50)) columns |
| FigureCrop.FigurePathOfJpg | utils/utils.py:43 | the figure of `stem.jpg` is written as `stem_graph.jpg` in the image directory |
| Config.Get | config.py:23-25 | a lookup succeeds exactly when the section and the folded option exist; the KeyError names the section when it is missing, else the option |
| Config.ReadConfig | config.py:8-59 | a missing file raises FileNotFoundError; a result needs every option present and both directories creatable; the paths and the four database options are copied; credentials are copied only as a pair and then without trusted_connection, which otherwise defaults to "yes" |
| Config.Authentication | config.py:40-45 | the authentication options hold the username exactly when they hold the password, hold trusted_connection exactly when they hold no credentials, and never hold one of the four database options, so merging them keeps those options |
| Config.ReadConfigSucceeds | config.py:14-59 | the settings are read exactly when the file exists, every option is present and both directories can be created |
| Config.MissingPathOption | config.py:23-25 | the first missing path option in reading order (or the missing PATHS section) is the key reported |
| Config.MissingDatabaseOption | config.py:33-38 | once the paths are read, the first missing database option in reading order (or the missing section) is the key reported |
| DbConnection.ParseRender | db_connection.py:17-32 | a string of `KEY=value;` entries without stray `;` reads back as exactly those entries |
| DbConnection.ConnectionString | db_connection.py:15-32 | a connection string exists exactly when driver, server and database are configured, and it is the rendering of the chosen entries |
| DbConnection.SqlConnectionString | db_connection.py:17-23 | with both credentials the string is `DRIVER={d};SERVER=s;DATABASE=n;UID=u;PWD=p;` |
| DbConnection.WindowsConnectionString | db_connection.py:27-32 | otherwise the string is `DRIVER={d};SERVER=s;DATABASE=n;Trusted_Connection=yes;`, whatever trusted_connection is set to |
| DbConnection.ConnectionKeys | db_connection.py:15-32 | read back, the string carries UID and PWD exactly under SQL authentication and Trusted_Connection exactly otherwise, in the written order |
| DbConnection.Connect | db_connection.py:7-42 | a configuration error escapes; a connection is returned only for the built string and only when the driver accepts it; otherwise None |
| DbConnection.ConfiguredConnection | db_connection.py:10-36 | from a complete configuration the string always builds, SQL authentication is used exactly when the ini file has both credentials, and the result is the accepted connection or None |
| FetchData.Zip | sql_queries/fetch_data_from_database.py:49-51 | a record holds exactly the names within the shorter of the two sequences, and each name maps to the value at its last occurrence |
| FetchData.ZipProject | sql_queries/fetch_data_from_database.py:49-51 | with distinct names and a full-width row, the record holds exactly the columns and reading it back in column order gives the row |
| FetchData.ZipTruncates | sql_queries/fetch_data_from_database.py:51 | names beyond the row's end are absent from the record |
| FetchData.Fetch | sql_queries/fetch_data_from_database.py:7-68 | None exactly when there is no connection or the query raises; the connection is closed exactly on success; otherwise one record per fetched row, in order, or [] when nothing is fetched |
| FetchData.FetchFromDb | sql_queries/fetch_data_from_database.py:7-58 | an error reading the configuration escapes the call; otherwise the result is None exactly when the driver rejects the configured connection string (or it cannot be built) or the query raises, and the connection is closed exactly when the fetch succeeds; the result is the fetch on that connection, so the records returned are the fetched rows, one per row in order, each zipped with the column names |
| FetchData.FetchRecords | sql_queries/fetch_data_from_database.py:42-58 | a successful fetch gives one record per row, each holding exactly the column names and reading back as its row |
| Dashboard.Upload | app2.py:58-83 | unpacking None raises TypeError; a frame not of three columns raises ValueError on unpacking (the width in UnpackMismatch is the model's own label, not part of the message); a three-column frame binds its three labels, all present, so the four-argument save call is made and raises |
| Dashboard.UploadNeverSaves | app2.py:58 | for every page text the upload ends in the exception handler before anything is saved: a page with no peak row raises on unpacking None, any other page on unpacking five labels into three names |
| Dashboard.IntendedUpload | app2.py:63-70 | the corrected upload attempts a save exactly when all three values are present, and reports what `save_table_to_db` returns |
| Dashboard.IntendedUploadSaves | app2.py:58-70 | with the corrected upload, a page with a peak table, a sample id and a report date is saved unless the driver raises |
| Dashboard.DropUndated | app2.py:94 | exactly the dated rows are kept |
| Dashboard.Earliest | app2.py:96 | the earliest date is carried by some row and no dated row is earlier; None exactly when nothing is dated |
| Dashboard.Latest | app2.py:97 | the latest date is carried by some row and no dated row is later; None exactly when nothing is dated |
| Dashboard.DefaultRange | app2.py:96-103 | the default range exists exactly when some row is dated, runs from a date some row carries to a date some row carries, and contains every dated row |
| Dashboard.FilterByDate | app2.py:106-113 | a From Date after the To Date is rejected; otherwise exactly the rows dated within the range, both ends included, are kept |
| Dashboard.FilterByDateOrder | app2.py:110-113 | the date filter keeps the rows' relative order |
| Dashboard.DefaultRangeKeepsAll | app2.py:96-113 | with the default dates, the filter keeps every dated row |
| Dashboard.SampleIds | app2.py:116 | the sample ids offered are the distinct ids of the filtered rows, in first-appearance order |
| Dashboard.SampleRows | app2.py:120 | exactly the rows whose id equals the selection are kept; a missing id or no selection keeps nothing |
| Dashboard.ChromatogramIsFigure | app2.py:140 | the dashboard looks for the chromatogram of sample id `s` exactly where the figure of page image `s.jpg` is written |
| Dashboard.Page | app2.py:87-147 | no records shows the no-data warning; an inverted range is rejected; otherwise the page shows the distinct ids of the rows in range, and only rows of the selected sample that lie in range and were fetched: the details give each such row's id, parsed date, machine and result, and the results its peak name and retention time, in order; the chromatogram path is `IMAGE_DIR/<id>_graph.jpg` for a selected text id and `IMAGE_DIR/None_graph.jpg` with nothing selected |

## Left out

- Reading the PDF, rasterising the page, running the layout model and writing the JPEG are I/O; their results are inputs. `extract_text_from_pdf` and `extract_images_from_pdf` are not part of this model.
- PdfExtractor.MatchAtSound: `\d` is modelled as the ASCII digits; Python's `\d` on str also matches other Unicode decimal digits.
- SaveTable.SaveTableValues: numbers are exact rationals, so the rounding of `astype(float)` is not modelled.
- Numbers.ParseNumber: only optionally signed `\d+` and `\d+\.\d+` text converts. The other forms `pd.to_numeric` accepts are treated as non-numeric: exponents (`1e3`), `inf` and `nan`, space-padded text, `.5` and `5.`. The peak-row pattern never captures any of them.
- Config.Get: option folding covers ASCII letters only. The DEFAULT section, interpolation and a second read of the file are not modelled.
- Paths.PathJoin: POSIX joining only; Windows `ntpath` drive handling is not modelled.
- FigureCrop.SaveFigure: `int()` of the model's float coordinates is taken as given (the coordinates are integers). The return value of `cv2.imwrite` is not modelled. An empty crop, which makes `imwrite` raise inside the `try`, gives None.
- DbConnection.ConnectionKeys: stated only for configured values without `;`. A value containing `;` makes the string ambiguous to read back, as it does for the driver.
- DbConnection.Connect: the pyodbc driver is the `accepts` parameter. Network errors and driver-specific messages are not modelled.
- FetchData.Fetch: the SQL text itself and `cursor.description` are inputs. The connection left open on the exception path is recorded (`closed` is false), not released.
- Dashboard.Page: when no request date parses, pandas' `NaT.date()` behaviour is reduced to the NoDates view.
- Dashboard.Page: a numeric or missing sample id's f-string formatting is not modelled, so the chromatogram path is None for it: a missing id prints as `None` in an object column (a SQL NULL from pyodbc) but as `nan` where the column holds NaN, which the model's cell values do not distinguish.
- Dashboard.Page: whether the chromatogram file exists is not modelled; only its path is stated.
- Streamlit rendering, widget state, session flags, logging, `app.py`, `utils/model.py` and `utils/logger.py` are not part of this model.
- Date parsing by `pd.to_datetime` is a parameter (`parseDate`), with dates as day numbers.

## Findings

| source | as written | input that shows it | evidently intended | confidence | as-written member | corrected member |
|---|---|---|---|---|---|---|
| app2.py:58-70 | the extractor's single return value (a DataFrame or None) is unpacked into three names, and `save_table_to_db`, which takes `(df, table_name)`, is called with four arguments | any page text: with no peak row, None cannot be unpacked; with peak rows, a five-column frame unpacks into five labels | the table is saved when the table, sample id and report date were all found | high; not executed | Dashboard.UploadNeverSaves | Dashboard.IntendedUploadSaves |
