# Watcher configuration store and handler logic, in Dafny

This project models the core of Watcher, a movie-download manager written in
Python 2. Three pieces are modelled.

**The configuration store** (`core/config.py`, class `Config`) is modelled in
`config_doc.dfy` and `config.dfy`.
- The store keeps an INI document in a ConfigParser object. The document maps
  section to key to string value.
- It keeps the same document on disk.
- It keeps a process-wide mirror, `core.CONFIG`. In the mirror, the values of
  `Indexers`, `PotatoIndexers` and `Quality` are comma-split lists.
- The model has a class `Config`:
  - field `parser`: the parser's sections;
  - field `file`: the document on disk;
  - `base`: the shipped template;
  - `core`: a `Core` object whose `mirror` field is `core.CONFIG`.
- Its methods `NewConfig`, `WriteDict`, `WriteSingle`, `MergeNewOptions` and
  `Stash` follow the five Python methods step by step.
- The parser object lives as long as the `Config` object. Each
  `ConfigParser.read` lays the file over what the parser already holds, and
  gives a section it has not seen before a `__name__` key, which `write`
  leaves out. So every method states its result for any earlier parser
  state. The lemmas in `ConfigDoc` then give the plain effect on the file when
  the parser holds nothing the file lacks (`Covered`). That holds for a fresh
  object and after every successful write.

**Five pieces of the web handlers** (`core/ajax.py`) are modelled in
`ajax.dfy`:
- the settings diff of `save_settings`;
- the record normalisation of `add_wanted_movie`;
- the new-movie filter and review split of `scan_library`;
- the download-kind refusal of `manual_download`;
- the score lookup of `submit_import`.

What the database, TMDB and the downloaders would answer is passed in as
parameters.

**The status page's movie list** (`templates/status.py`, `movie_list`) is
modelled in `status.dfy`:
- the status label, CSS class and sort rank;
- the five-icon star rating;
- the empty and failed query results;
- the per-movie item, including when the `rated` element is shown.

Two support modules complete the project:
- `text.dfy` models the Python string operations involved: `split`/`join`
  on one character, `str(n)`, `"%x"`, `zfill`, ASCII `lower`, and
  `replace(sub, '')`.
- `json_values.dfy` models decoded JSON values, Python truthiness,
  `str.format` of a value, and the exceptions the handlers can raise.

The API key has 6 to 32 lower-case hex digits, not always 32: `"%06x"`
(core/config.py:46) pads only to six.

In this model every configuration value is a string; see "## Left out".
In the program, `write_dict` sets whatever JSON values `save_settings` passes
it, and `stash` copies them through `json`. So the live mirror can hold
numbers and nested objects, and the handlers expect them:
`core.CONFIG['Downloader']['Sources'][...]` (core/ajax.py:315, 317) and
`core.CONFIG['Search']['waitdays'] == 0` (core/ajax.py:113). Because this model
holds only strings and lists at the second level of the mirror, the model of
`manual_download` always raises while reading its flags
(`Ajax.FlagsUnreadable`). That is a consequence of the string-only model, not
a claim about the program. The decision that follows the reads is modelled
separately, with the flags as parameters (`Ajax.DecideDownload`).

## Model

| member | source | states |
|---|---|---|
| ConfigDoc.ReadInto | core/config.py:66 | `parser.read(file)` keeps every section the parser had and adds every section of the file |
| ConfigDoc.SetOption | core/config.py:72 | `parser.set` on an existing section keeps the set of sections |
| ConfigDoc.WithoutName | core/config.py:74-75 | a section as written to disk never holds the `__name__` key |
| ConfigDoc.Written | core/config.py:74-75 | the written file has the parser's sections and no `__name__` key anywhere |
| ConfigDoc.Merge | core/config.py:112 | laying the file over the template gives exactly the sections of both |
| ConfigDoc.WithoutNameTwice | core/config.py:74-75 | dropping `__name__` is idempotent |
| ConfigDoc.WrittenIdempotent | core/config.py:74-75 | writing an already-written document changes nothing |
| ConfigDoc.WrittenCovers | core/config.py:74-75 | after a write, the parser holds no section or real key that the file lacks |
| ConfigDoc.OverlaySection | core/config.py:66 | reading a section over one whose real keys it already has leaves, `__name__` aside, the file's section |
| ConfigDoc.ReadCovered | core/config.py:66 | reading the file into a covered parser and writing again reproduces the file |
| ConfigDoc.WriteDictEffect | core/config.py:66-75 | section replace, not merge: each section of `data` ends up with exactly `data`'s keys and values, every other section of the file is unchanged, and no other section appears |
| ConfigDoc.WithoutNameAbsent | core/config.py:74-75 | a section with no `__name__` key is written as it is |
| ConfigDoc.WithoutNameSet | core/config.py:96-100 | setting a real key commutes with dropping `__name__` |
| ConfigDoc.WriteSingleEffect | core/config.py:94-100 | a single-key update changes the file at that key of that section and nowhere else |
| ConfigDoc.MergeSection | core/config.py:112 | within one section, the merge is the template's keys under the file's |
| ConfigDoc.MergeRead | core/config.py:112-114 | reading the template and then the file into a covered parser, then writing, gives the file laid over the template |
| ConfigDoc.MergeReadKeys | core/config.py:112 | the merge brings in no section beyond those of the template and the file |
| ConfigDoc.MergeAbsorbs | core/config.py:112 | a file that already has every section and key of the template is left as it is |
| ConfigDoc.MergeTwice | core/config.py:112-114 | running the merge a second time on its own output changes nothing, whatever the parser held first |
| ConfigDoc.MergeMeaning | core/config.py:112 | the file's keys keep their values, template-only keys are added with the template's values, file-only keys stay, and no key comes from anywhere else |
| ConfigDoc.MergeIdempotent | core/config.py:112 | merging the template into a merge gives the same document |
| ConfigDoc.MirrorOfWritten | core/config.py:74-78 | the mirror built after a write equals the one built from the parser |
| ConfigDoc.MirrorShape | core/config.py:125-142 | the mirror has the document's sections and keys less `__name__`; values are lists in exactly the three list sections and plain strings elsewhere; each raw value can be recovered by joining |
| ConfigStore.Randomized | core/config.py:40-47 | setting the five random fields adds no section |
| ConfigStore.Core.constructor | core/config.py:142 | the mirror starts as given |
| ConfigStore.Config.constructor | core/config.py:14-19 | a fresh store has an empty parser, and it is in sync with a file that holds no `__name__` key |
| ConfigStore.Config.NewConfig | core/config.py:21-51 | the file becomes the template; the five random fields are set in the parser, and a missing `Search` or `Server` section raises `NoSectionError` in that order; on each error path the parser keeps the read template, with the two `Search` fields set when only `Server` is missing; on success it returns `'Config Saved'`, the file is what the parser writes, and from a fresh parser the file is the template with exactly the five fields set; the mirror is untouched |
| ConfigStore.Config.Set | core/config.py:96 | `parser.set` sets one key of an existing section, and on a missing section raises `NoSectionError` with the parser unchanged |
| ConfigStore.Config.WriteDict | core/config.py:53-79 | a section name that lower-cases to `default` raises `ValueError` with file and mirror untouched, leaving the parser as the read document with the sections handled before it replaced and the refused one removed; otherwise the parser is the read document with `data`'s sections replaced and the file is what it writes; the file has `data`'s sections exactly and every other section unchanged; the mirror is rebuilt iff the three list sections exist, and a missing one raises `KeyError` |
| ConfigStore.Config.ReplaceSections | core/config.py:68-72 | the loop replaces every section of `data` (the parser becomes the old parser overridden by `data`), or stops with `ValueError` on a `default` name, leaving the sections handled so far replaced, the refused one removed, and the rest as before |
| ConfigStore.Config.ReplaceSection | core/config.py:69-72 | `remove_section`, `add_section` and the key loop leave the section holding exactly the given keys; `add_section` refuses a name that lower-cases to `default`, after `remove_section` has already taken the section out |
| ConfigStore.Config.SetKeys | core/config.py:71-72 | setting every key of a section in turn lays those keys over the section, and changes no other section |
| ConfigStore.Config.WriteSingle | core/config.py:81-102 | on a section the read document lacks, raises `NoSectionError`; on one the mirror lacks, raises `KeyError` with file and mirror untouched; otherwise the value is stored unsplit as a plain string in the mirror (even in a list section), the file is rewritten, and from an in-sync state only that key of that section changes in the file |
| ConfigStore.Config.MergeNewOptions | core/config.py:104-115 | the parser reads the template, then the file; the file is rewritten, and from an in-sync state it is the file laid over the template; the mirror is untouched |
| ConfigStore.Config.Stash | core/config.py:117-144 | a missing `Indexers`, `PotatoIndexers` or `Quality` section raises `KeyError`, checked in that order, and leaves the mirror as it was; otherwise the whole mirror is replaced by the document without `__name__` and with the three list sections split on commas |
| ConfigStore.StripSection | core/config.py:128-130 | deleting `__name__` from a copied section leaves the plain section |
| ConfigStore.StripNames | core/config.py:125-130 | the copied document has the parser's sections, each as plain strings without `__name__` |
| ConfigStore.SplitValues | core/config.py:133-140 | every value of the section, and only its values, is replaced by its comma split |
| ConfigStore.StashedMirror | core/config.py:133-142 | the copy with its three list sections split is exactly the mirror of the parser's document |
| ConfigStore.ListSection | core/config.py:133-140 | a list section of the mirror is the plain section split on commas |
| ConfigStore.PlainSection | core/config.py:125-130 | every other section of the mirror is the plain section |
| ConfigStore.RandomFields | core/config.py:40-47 | the two hour fields and the two minute fields are two decimal digits that read back as the given number; the API key has 6 to 32 lower-case hex digits and reads back as the given number |
| ConfigStore.NoNamesWritten | core/config.py:74-75 | a file with no `__name__` keys is its own written form |
| ConfigStore.RandomizedWritten | core/config.py:38-50 | from a parser that holds nothing the template lacks, `new_config` writes the template with exactly the five random fields set |
| ConfigStore.WritePreservesSet | core/config.py:96-100 | setting a real key before writing gives the same file as setting it after |
| Text.Split | core/config.py:134 | `split(',')` gives at least one piece, no piece holds a comma, and `""` gives `[""]` |
| Text.JoinSplit | core/config.py:134 | joining the pieces of a split with the separator gives the original string |
| Text.SplitJoin | core/config.py:134 | splitting a join of comma-free pieces gives those pieces back |
| Text.Digits | core/config.py:40 | `str(n)` is a non-empty digit string without leading zeros |
| Text.DigitsRoundTrip | core/config.py:40-46 | the digit string of `n` reads back as `n` |
| Text.LeadingZeros | core/config.py:40-46 | zero padding does not change the value a digit string denotes |
| Text.ZFill | core/config.py:40 | `zfill(w)` has length `max(w, len)` |
| Text.TwoDigitsShape | core/config.py:40-44 | below 100, `str(n).zfill(2)` is exactly two decimal digits that read back as `n` |
| Text.Hex06Shape | core/config.py:46 | for a 128-bit number, `"%06x"` gives 6 to 32 lower-case hex digits that read back as `n` |
| Text.Lower | core/config.py:70 | `lower()` keeps the length and lowers each character |
| Text.RemoveAll | core/ajax.py:647 | `replace(sub, '')` never lengthens the string |
| Text.RemoveAbsent | core/ajax.py:647 | `replace(sub, '')` leaves a string in which `sub` does not occur unchanged |
| JsonValues.Format | core/ajax.py:122 | `format` of a string value is that string |
| Ajax.SettingsDiff | core/ajax.py:254-257 | a submitted section the mirror lacks raises `KeyError` naming it, and only then; otherwise the result is exactly the submitted sections that differ from the mirror |
| Ajax.ChangedComplete | core/ajax.py:254-257 | every submitted section is either in the diff with its submitted value or equal to the mirror's, and the diff holds only differing sections |
| Ajax.ListSectionsAlwaysChanged | core/ajax.py:256 | a submitted non-empty list section always counts as changed, because the mirror holds lists there and the form sends strings |
| Ajax.SaveSettings | core/ajax.py:249-270 | raises iff a submitted section is not in the mirror; with nothing changed it answers `response: True` and writes nothing; otherwise it hands the diff to `write_dict` and answers `response: True` iff the write succeeds, else the write-failure error. A refused `default` name leaves file and mirror as they were and the parser as `write_dict` left it at the refusal. Otherwise the parser holds the diff's sections, the file is rewritten from it, and on success the mirror is rebuilt from the file; from an in-sync store, the file has the diff's sections replaced and every other section kept |
| Ajax.YearOf | core/ajax.py:95-98 | with no truthy `release_date`, the year is `'N/A'`; with a string one, it is that string's prefix of at most 4 characters; with any other truthy scalar (a number or `true`), slicing raises `TypeError` |
| Ajax.ExistingLabel | core/ajax.py:130 | a stored status `Disabled` is reported as `Finished`, any other status as it is |
| Ajax.KeepRequired | core/ajax.py:144-148 | the key loop leaves exactly the record restricted to the required keys |
| Ajax.RestrictMeaning | core/ajax.py:144-148 | the whitelist keeps only required keys, keeps every required key the record had, and keeps their values |
| Ajax.StoredKeys | core/ajax.py:134-151 | the stored row has only required keys; the ten the handler sets are always present, and `release_date`, `rated` and `addeddate` are present iff the request had them |
| Ajax.StoredCopied | core/ajax.py:93-123 | the stored row has the request's title, the derived year, and the request's imdb id, or the looked-up one when it had none |
| Ajax.StoredOptional | core/ajax.py:144-148 | `release_date`, `rated` and `addeddate` are stored exactly when the request had them, with the request's values |
| Ajax.StoredFilled | core/ajax.py:136-151 | the poster path and TMDB address are built from the ids; plot and score are copied from `overview` and `vote_average`; status defaults to `Wanted`, the date is today's, and quality defaults to `Default` |
| Ajax.AddWantedMovie | core/ajax.py:92-153 | the error path for each case in the handler's order: missing `title`, a year that cannot be sliced, a missing `id` or a failed imdb lookup, an existing movie, then missing `poster_path`, `overview`, `id` or `vote_average`; otherwise the added or database-error message, and the record the handler leaves is the stored row |
| Ajax.Collect | core/ajax.py:647 | over the first `n` scanned files, the comprehension raises `KeyError('imdbid')` iff one of them lacks an `imdbid` |
| Ajax.NewMovies | core/ajax.py:646-647 | the comprehension raises `KeyError('imdbid')` iff a scanned movie lacks an `imdbid` |
| Ajax.CollectComplete | core/ajax.py:647 | every new movie among the first `n` scanned is listed under its key |
| Ajax.CollectSound | core/ajax.py:647 | every listed movie is the last new one, among the first `n` scanned, under its key |
| Ajax.NewMoviesComplete | core/ajax.py:646-647 | every scanned movie whose imdb id is not in the library is listed under its path without the directory |
| Ajax.NewMoviesSound | core/ajax.py:646-647 | every listed movie is the last new scanned movie under its key, so no listed movie has an imdb id already in the library |
| Ajax.Partition | core/ajax.py:649-655 | review and incomplete are disjoint, together hold every new movie with its value, and a movie is in review iff its `imdbid` and `resolution` are both truthy |
| Ajax.ScanLibrary | core/ajax.py:644-657 | raises `KeyError('imdbid')` iff a scanned movie lacks an `imdbid`; otherwise review and incomplete together hold exactly the new movies, each under its key with its scanned record, every record being the last new one scanned under that key; no owned movie survives, the two are disjoint, and a movie is in review iff it is ready |
| Ajax.KindRefusal | core/ajax.py:319-322 | a link is refused iff it is NZB with usenet disabled, or torrent or magnet with torrents disabled, with the handler's messages |
| Ajax.SourcesFlag | core/ajax.py:315 | in this string-only model of the mirror, reading a flag three levels in raises `KeyError` for a missing `Downloader` section or `Sources` key, and otherwise `TypeError`, because the value found is a string or a list |
| Ajax.ManualDownload | core/ajax.py:315-317 | with the mirror held as strings and lists, the handler raises `KeyError('Downloader')`, `KeyError('Sources')` or `TypeError` while reading its flags, before any refusal or database query |
| Ajax.FlagsUnreadable | core/ajax.py:315-317 | for every document of strings, against the mirror `stash` builds from it, the handler raises one of those three errors; a mirror holding nested JSON values, which this model leaves out, could pass these reads |
| Ajax.DecideDownload | core/ajax.py:319-330 | given the two flags, a refusal comes first; then a failed lookup raises `TypeError`, an empty row gives the database error, and a non-empty row is handed to the snatcher with only `year` set to the given year |
| Ajax.RefusalBeforeLookup | core/ajax.py:319-324 | given the flags, a refused link gets the same answer whatever the database holds |
| Ajax.EnabledNotRefused | core/ajax.py:319-322 | a kind whose downloader is enabled, or any kind other than NZB, torrent and magnet, is never refused |
| Ajax.FirstScore | core/ajax.py:712-716 | with no search results the score is `None`, and a truthy score is only ever found for a movie that has an `imdbid` |
| Ajax.FirstScoreMatches | core/ajax.py:712-716 | the score found is the first matching result's, and `None` iff no result matches |
| Ajax.ScoreUpdates | core/ajax.py:711-718 | no more updates than imported movies; every update carries a truthy score that is the first match for its imdb id, and its id is that of some imported movie |
| Ajax.ScoreUpdatesOnePerMovie | core/ajax.py:711-718 | the updates belong one each to distinct imported movies, in the movies' order, each carrying that movie's imdb id and its truthy first score |
| Ajax.ScoreUpdatesComplete | core/ajax.py:711-718 | when no `KeyError` ends the step, every imported movie with a truthy first score gets its update |
| Ajax.ScoreImport | core/ajax.py:711-718 | the nested loop with its `break` makes exactly the updates, and stops at exactly the error, the score step describes |
| StatusView.StatusTagOf | templates/status.py:85-99 | a status has a sort rank iff it is one of the five known ones, the rank is 1 to 4, the label is the status with `Disabled` shown as `Finished`, and an unknown status shows `Status Unknown` with class `status wanted` |
| StatusView.CssFollowsLabel | templates/status.py:86-97 | a known status's CSS class is `status ` followed by its label in lower case |
| StatusView.RanksOrdered | templates/status.py:86-97 | Wanted < Found < Snatched < Finished in sort rank, `Disabled` sorts as `Finished`, and two known statuses share a rank iff they share a label |
| StatusView.DigitOf | templates/status.py:111 | `int(c)` succeeds iff `c` is a decimal digit, gives its value, and otherwise raises `ValueError` naming `c` |
| StatusView.ScoreDigit | templates/status.py:111 | `int(score[0])` succeeds iff the score is a string whose first character is a digit, and gives a value below 10 |
| StatusView.Stars | templates/status.py:107-120 | a rating has five icons; `N/A` gives five empty stars; otherwise the rating succeeds iff the first digit can be read, fails with that error, and puts the digit's icon at each place |
| StatusView.DrawStars | templates/status.py:106-120 | the loops draw exactly the rating the star rule gives |
| StatusView.StarRuns | templates/status.py:112-120 | digit `d` gives `d/2` full stars, one half star iff `d` is odd, then empty stars; full and half never exceed five, so the icons always total five |
| StatusView.FirstCharOnly | templates/status.py:111 | two scores with the same first character get the same rating |
| StatusView.Entry | templates/status.py:82-122 | fields are read in the page's order (`imdbid`, `status`, `title`, `year`, `score`, then `rated` after the rating), so the first missing one raises `KeyError`, a rating error is raised before `rated` is read, and a complete row with a readable score renders; the item shows the row's id, title and year, the poster path under the URL base, the status tag and the rating; `rated` is shown iff it is truthy |
| StatusView.RenderMovieList | templates/status.py:70-124 | an empty result shows nothing, a failed query shows the error text; otherwise the list succeeds iff every movie renders, then holds each movie's item in order, and otherwise fails with the first failing movie's error |

## Left out

- File I/O and the INI text format. `shutil.copy2`, `open`, `readfp`, `read` and `write` become assignments of document values to the `file` and `parser` fields. An unreadable or unwritable file is not modelled, nor is the copy failing in `new_config`.
- ConfigParser details are not modelled: whitespace stripping of values, inline and full-line comments, quoting such as `'""'` read back as `''`, continuation lines, the `DEFAULT` section and interpolation. So a value that `read` changes after a `write` is taken back unchanged here. The `add_section` rule refusing a name that lower-cases to `default` is modelled.
- Writing never fails in this model. Under Python 2, `write` raises `UnicodeEncodeError` for a non-ASCII unicode value, for example one submitted through `save_settings`. It does so after `open(self.file, 'w')` has already truncated the file, leaving it partly written.
- ConfigStore.Config.WriteDict: the parser's `set` applies `str` to each key, because the store sets `optionxform = str` (core/config.py:16). Under Python 2 that raises `UnicodeEncodeError` for a non-ASCII unicode key, inside the key loop at core/config.py:72. The parser is then left partly replaced, the file and mirror are untouched, and `save_settings` answers with its write-failure error (core/ajax.py:262-268). This is not modelled: keys here are accepted as they are, so `WriteDict` and `Ajax.SaveSettings` succeed on such a key.
- ConfigStore.Config.WriteSingle: `str(value)` is modelled by taking the value as a string already. For the same reason as `WriteDict`, a non-ASCII unicode key (core/config.py:96) or value (core/config.py:92) raises `UnicodeEncodeError` under Python 2; that is not modelled.
- ConfigStore.Config.NewConfig: the random numbers are parameters whose ranges are preconditions, standing for `random.randint`.
- `json.loads(json.dumps(...))` in `stash` is modelled as a plain copy. That is exact for the strings and lists this model holds; the program would also copy numbers and nested objects, which are left out (see `Ajax.SaveSettings` above).
- The order of sections and keys in the file is not modelled: a document is a map.
- Threads, the web server, and the handlers' HTTP and JSON plumbing are not modelled. Handlers take decoded values and return a `Reply` value.
- JSON values (`JsonValues.JValue`) are `null`, booleans, integers and strings only. JSON arrays and objects are not values in this model, so a record never holds a list or a nested dict. Where the program would slice, subscript or compare such a value, as `release_date[:4]` does at core/ajax.py:96, the model has no case for it.
- JSON numbers are integers; floating-point scores and Python's `1 == True` across types are not modelled.
- Ajax.SaveSettings: takes submitted sections of strings; numbers, booleans and nested objects in the form are not modelled. So neither are the mirror values they would become after `write_dict` and `stash`, which the handlers read at core/ajax.py:113 and 315-317. The `orig_config` copy and the logging do nothing the reply depends on.
- Ajax.AddWantedMovie: TMDB's `get_imdbid`, the database's `row_exists`, `get_movie_details` and `write`, and today's date are parameters. The searching and poster threads that follow a successful write are not modelled.
- Ajax.ScanLibrary: `library.scan_dir` is not modelled. Its dict is taken as a sequence of (path, movie) pairs in iteration order, and the library as the list of its imdb ids. When several movies lack an `imdbid`, the model raises for the first in that order.
- `import_library.render_review` (the review HTML) is not modelled.
- Ajax.DecideDownload: the two downloader flags are parameters, standing for reads that succeed. Against a string-only mirror they never do (see `Ajax.ManualDownload`). The snatcher's answer is not modelled; the model stops at the record handed to it.
- `submit_import` outside its score step is not modelled: the corrected-movie lookups, the calls to `add_wanted_movie`, `fake_search_result`, the `score.score` ranking and the database writes. The step takes the successful movies and the scored results as inputs and returns the updates it would make.
- StatusView.RenderMovieList: the `dominate` HTML tags and `core.URL_BASE` are not modelled. The URL base is a parameter, and each movie becomes a `MovieItem` holding what its markup shows.
- StatusView.DigitOf: `int()` of a non-ASCII Unicode digit is not modelled; such a character raises `ValueError` here.
- The rest of `core/ajax.py` and `templates/status.py` is not part of this model. That covers the other handlers and the page layout.
