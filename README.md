# pixif in Dafny

A model of the image pipeline of `pixif.py` (Python 2), with proofs. For each
file, the program does the following:

- It takes the decoded EXIF map (identifier such as `"EXIF DateTimeOriginal"`
  to value).
- It builds a tag dictionary seeded with the file's base name under `name`.
- It walks the identifiers in sorted order and stores each value under the
  identifier's second word; the first writer wins.
- It picks a capture timestamp from `DateTimeOriginal`, `DateTimeDigitized`
  and `DateTime`.
- It expands that timestamp into the eight calendar keys `year` … `yearday`.
- `files_to_pixif` keeps, in order, the images whose construction did not
  raise.
- The driver binds the template `{year}/{year}-{month}-{day}/{name}` against
  the tags and joins the result onto the destination directory.

Modules:

- `Wrappers`: `Option` and `Result`.
- `Text`: Python 2 `str.split()`, the byte-string order `list.sort()` uses,
  and zero-padded decimal digits.
- `Calendar`: the proleptic Gregorian calendar of `datetime`, `strptime` for
  `'%Y:%m:%d %H:%M:%S'`, and `strftime('%Y %m %d %H %M %S %w %j')`.
- `Paths`: `os.path.basename` and two-part `os.path.join`.
- `Template`: `str.format(**tags)` with named fields.
- `Pixif`: the class `PixifImage`, `files_to_pixif` and the destination
  expression.

`PixifImage` is a class. Its `tags` and `datetime` fields are updated in place
by `GetTags`, `TryCandidates`/`TryFormats` and `StoreDateParts`. Each of those
methods is proved against a function of the old state:

- `Normalize` for `get_tags`;
- `Latest`/`Resolve` for the nested parse loops;
- `StoreFields`/`Expanded` for the calendar expansion.

`ParseImage` states what a whole construction yields, and `NewPixifImage`
returns `null` exactly when it is `None`. `FilesToPixif` keeps exactly the
records of `Collect`, in input order.

Behaviours of `pixif.py` that the model keeps as written:

- **The last successful parse wins.** The comment at `pixif.py:24-25` says the
  first valid tag is kept, but the loops at lines 75-88 have no `break`, so
  each later successful parse overwrites `self.datetime`.
  `Pixif.LastParseWinsOverComment` exhibits an input where the two rules give
  different timestamps.
- **An image with no parsable timestamp is dropped.** `self.datetime` is
  never assigned, so line 90 raises `AttributeError`, and `files_to_pixif`
  (lines 119-125) drops the image.
- **An image dated before 1900 is dropped too.** Python 2's
  `datetime.strftime` raises `ValueError` for such years at line 91.
- **Metadata keys keep the case of the identifier's second word.** Line 64
  stores under `tag.split()[1]` unchanged, while the calendar keys of line 33
  are lower-case.
- **The thumbnail skip at line 58 is an exact match** on `JPEGThumbnail` and
  `TIFFThumbnail`. Both are single words, which line 64 drops anyway
  (`Pixif.TagKeyOfWord`).

## Model

| member | source | states |
|---|---|---|
| Text.Split | pixif.py:64 | `tag.split()` yields only non-empty, whitespace-free words |
| Text.SplitUnwords | pixif.py:64 | splitting words joined by single spaces gives back exactly those words |
| Text.LessIrreflexive | pixif.py:55-56 | the sort order never puts a string before itself |
| Text.LessTransitive | pixif.py:55-56 | the sort order is transitive |
| Text.LessAsymmetric | pixif.py:55-56 | of two strings, at most one comes first |
| Text.LessTotal | pixif.py:55-56 | any two distinct identifiers are ordered one way or the other |
| Text.Digits | pixif.py:91 | a `strftime` field of width `w` is exactly `w` decimal digits |
| Text.ValueDigits | pixif.py:91 | a zero-padded rendering of `n` in `w` digits reads back as `n` when `n < 10^w` |
| Text.DigitsValue | pixif.py:79 | a digit string is the zero-padded rendering of its own value at its own width |
| Text.ParseDigitsRoundTrip | pixif.py:91 | a rendered field parses back to its number |
| Text.ValueBound | pixif.py:79 | a `w`-digit string denotes a number below `10^w` |
| Calendar.DayOfYear | pixif.py:33 | `%j` lies between 1 and the length of the year (at most 366) |
| Calendar.Weekday | pixif.py:33 | `%w` lies in 0..6 |
| Calendar.DaysBeforeMonthYear | pixif.py:33 | the twelve months add up to the length of the year, leap years included |
| Calendar.DaysBeforeMonthBound | pixif.py:33 | every month ends within its year |
| Calendar.DaysBeforeNextYear | pixif.py:33 | the day count of the next year starts right after this year's last day |
| Calendar.NextDayOrdinal | pixif.py:33 | the next calendar day is valid and has the next day number, across month ends, year ends and leap days |
| Calendar.WeekdayNextDay | pixif.py:33 | `%w` advances by one modulo 7 from each day to the next |
| Calendar.DayOfYearNextDay | pixif.py:33 | `%j` advances by one and restarts at 1 after 31 December |
| Calendar.WeekdayMillennium | pixif.py:33 | 2000-01-01 is a Saturday (`%w` 6), pinning the weekday origin |
| Calendar.Strptime | pixif.py:79-84 | a successful parse of `'%Y:%m:%d %H:%M:%S'` is a valid timestamp whose canonical text is the input; anything else is the `ValueError` case |
| Calendar.StrptimeExifText | pixif.py:79 | every valid timestamp is parsed back from its canonical text, so the parser accepts exactly the canonical texts of valid timestamps |
| Calendar.ExifLayout | pixif.py:79 | digit groups of widths 4,2,2,2,2,2 laid out as `Y:m:d H:M:S` have the shape the parser accepts and read back as those groups' values |
| Calendar.ExifTextFieldsOf | pixif.py:79 | a shaped text whose fields form a valid timestamp is that timestamp's canonical text |
| Calendar.TupleFieldsSplit | pixif.py:91 | for years from 1900 on, `strftime('%Y %m %d %H %M %S %w %j').split()` is exactly the eight zero-padded fields |
| Calendar.TupleFieldsRead | pixif.py:91 | each of the eight fields reads back as the component it renders |
| Calendar.TupleFields | pixif.py:91 | stated by `Calendar.TupleFieldsSplit` and `Calendar.TupleFieldsRead` |
| Calendar.StrftimeTuple | pixif.py:91 | stated by `Calendar.TupleFieldsSplit` (eight fields from 1900 on) and `Pixif.DateParts` (`None` exactly before 1900) |
| Paths.Basename | pixif.py:49 | a base name never contains '/' |
| Paths.BasenameSuffix | pixif.py:49 | the base name is the suffix after the last '/' (all of the path when it has none) |
| Paths.BasenameOfName | pixif.py:49 | a slash-free name is its own base name |
| Paths.BasenameAfterSeparator | pixif.py:140 | whatever precedes a separator does not change the base name |
| Paths.BasenameLastComponent | pixif.py:140 | the base name is decided by what follows the last separator |
| Paths.BasenameJoin | pixif.py:140 | `os.path.join(dst, p)` has the base name of `p`, whatever `dst` is |
| Paths.Join | pixif.py:140 | stated by `Paths.BasenameJoin` and `Paths.JoinRelative` |
| Paths.JoinRelative | pixif.py:140 | a relative path joined onto a directory without a trailing '/' gets exactly one separator |
| Template.Format | pixif.py:140 | a `KeyError` names a non-empty field that has no attribute |
| Template.FormatLitText | pixif.py:140 | a written literal character, braces doubled, formats to itself |
| Template.FormatFieldText | pixif.py:140 | a written `{name}` is looked up: its attribute is substituted, or `KeyError(name)` |
| Template.FormatFieldLast | pixif.py:140 | the same for a field that ends the template |
| Template.FormatUnparse | pixif.py:140 | formatting a template written from pieces equals substituting the pieces (`Render`) |
| Template.RenderOkIff | pixif.py:140 | binding succeeds exactly when every field has an attribute |
| Template.RenderFirstMissing | pixif.py:140 | a failed binding names the first field, in template order, that has no attribute; a partial path is never produced |
| Template.FormatLiteral | pixif.py:140 | a template without braces is returned unchanged |
| Pixif.TagKeyOfIdentifier | pixif.py:62-64 | an identifier of words joined by single spaces contributes its second word |
| Pixif.TagKeyIsSecondWord | pixif.py:64 | any identifier of two or more words contributes `split()[1]` |
| Pixif.TagKeyOfWord | pixif.py:58-72 | a one-word identifier contributes nothing (`IndexError`, caught) |
| Pixif.SplitNotThumbnail | pixif.py:58-60 | an identifier of two or more words is never one of the skipped thumbnails |
| Pixif.ThumbnailsAreWords | pixif.py:58 | both skipped thumbnail identifiers are single words |
| Pixif.TagKey | pixif.py:58-72 | stated by `Pixif.TagKeyIsSecondWord`, `Pixif.TagKeyOfWord`, `Pixif.TagKeyOfIdentifier` and `Pixif.SplitNotThumbnail` |
| Pixif.Least | pixif.py:56 | returns an element of the set that comes before every other element |
| Pixif.SortedIdentifiers | pixif.py:55-56 | the identifiers in strictly ascending order, each exactly once |
| Pixif.LeastExists | pixif.py:56 | every non-empty set of identifiers has a least element |
| Pixif.LeastWithOneMore | pixif.py:56 | a least element survives adding one more element |
| Pixif.FirstIdUnique | pixif.py:55-57 | the least identifier contributing a key is unique |
| Pixif.FirstId | pixif.py:57-67 | the chosen identifier is in the map and contributes the key |
| Pixif.FirstIdIsFirst | pixif.py:55-67 | the chosen identifier is the least one contributing the key |
| Pixif.NormalizeLeastWins | pixif.py:55-67 | when several identifiers share an unseeded key, the value kept is that of the least of them |
| Pixif.NormalizeExtends | pixif.py:65-67 | every seeded entry keeps its value, and a key is present exactly when it was seeded or some identifier contributes it |
| Pixif.Normalize | pixif.py:54-72 | stated by `Pixif.NormalizeLeastWins`, `Pixif.NormalizeExtends` and `Pixif.SeededKeys`; `Pixif.PixifImage.GetTags` is proved against it |
| Pixif.SeededKeys | pixif.py:49-67 | after normalisation, `name` is the base name and every other key comes from an identifier |
| Pixif.PixifImage.constructor | pixif.py:48-49 | the tags start as exactly `{name: basename(filename)}`, with no timestamp yet |
| Pixif.PixifImage.GetTags | pixif.py:54-72 | the loop leaves `Normalize(old tags, exif)` and keeps the base name |
| Pixif.FirstOfSorted | pixif.py:55-67 | the first identifier, in sorted order, to contribute a key is the least one contributing it |
| Pixif.TagsStep | pixif.py:57-72 | one turn of the loop keeps the loop's invariant (seed untouched, each key seen present, each added key holding its least identifier's value) |
| Pixif.TagsKeep | pixif.py:58-66 | a skipped, dropped or duplicate identifier keeps the invariant |
| Pixif.TagsAdd | pixif.py:65-67 | storing a new key keeps the invariant |
| Pixif.NormalizeFromLoop | pixif.py:54-72 | after all identifiers, the loop's dictionary is `Normalize` |
| Pixif.Present | pixif.py:75 | the filtered list holds exactly the names that are present, and is no longer than the names |
| Pixif.PresentAppend | pixif.py:75 | filtering keeps the order of the names: the names present in `a + b` are those of `a`, then those of `b` |
| Pixif.PresentOne | pixif.py:75 | one name is kept exactly when it is present |
| Pixif.PresentThree | pixif.py:75 | three names are kept when present, in their order |
| Pixif.CandidatesInOrder | pixif.py:26-75 | `Candidates` is `DateTimeOriginal`, `DateTimeDigitized`, `DateTime`, each only when present and always in that order, so a later candidate is a later tag |
| Pixif.Candidates | pixif.py:75 | stated by `Pixif.CandidatesInOrder` |
| Pixif.Tries | pixif.py:76-79 | one candidate value gives one parse attempt per format, in order |
| Pixif.Attempts | pixif.py:75-79 | one attempt per (candidate, format) pair, and every successful attempt is valid |
| Pixif.AttemptsAt | pixif.py:30-79 | with the single format, attempt `i` is the parse of candidate `i` |
| Pixif.AttemptsOfTwo | pixif.py:75-79 | two candidates give their two parses |
| Pixif.LastSomeIff | pixif.py:75-88 | the picked value is the successful attempt after which every attempt failed |
| Pixif.FirstSomeIff | pixif.py:24-25 | the rule in the comment: the successful attempt before which every attempt failed |
| Pixif.LastSomeNone | pixif.py:75-90 | nothing is picked exactly when every attempt failed |
| Pixif.LastSomeMember | pixif.py:75-88 | the picked value is one of the attempts |
| Pixif.Latest | pixif.py:75-88 | stated by `Pixif.LatestValid` and `Pixif.ResolveFresh`; `Pixif.PixifImage.TryCandidates` is proved against it |
| Pixif.Resolve | pixif.py:74-88 | a resolved timestamp is valid |
| Pixif.ResolveIsLastParse | pixif.py:75-88 | the resolved timestamp is the parse of the last candidate whose value parses; every later candidate fails |
| Pixif.ResolveNone | pixif.py:75-90 | no timestamp is resolved exactly when no candidate parses |
| Pixif.LastParseWinsOverComment | pixif.py:23-26 | with valid `DateTimeOriginal` 2020-05-01 and `DateTime` 2021-01-02, the code files by 2021-01-02, while the first valid attempt is 2020-05-01 |
| Pixif.ExampleCandidates | pixif.py:75 | the absent `DateTimeDigitized` is not tried |
| Pixif.ExampleAttempts | pixif.py:75-79 | the example's two attempts both parse |
| Pixif.ExampleParses | pixif.py:79 | the two example texts parse to the expected timestamps |
| Pixif.ExampleText2020 | pixif.py:79 | canonical text of 2020-05-01 10:00:00 |
| Pixif.ExampleText2021 | pixif.py:79 | canonical text of 2021-01-02 03:04:05 |
| Pixif.PixifImage.TryCandidates | pixif.py:75-88 | the nested loops leave the last successful parse over all attempts, or the old value if none succeeded |
| Pixif.PixifImage.TryFormats | pixif.py:76-88 | the inner loop extends the attempts by one candidate's parses and keeps the latest success |
| Pixif.LatestValid | pixif.py:75-88 | the timestamp kept is always valid |
| Pixif.ResolveFresh | pixif.py:74-88 | starting without a timestamp, the loops resolve `Resolve(tags)` |
| Pixif.AssignPrefix | pixif.py:92-93 | one more turn of the store loop stores one more key |
| Pixif.StoreFieldsKeeps | pixif.py:93 | storing the fields leaves every non-calendar key as it was |
| Pixif.AssignTupleKeys | pixif.py:32-34 | storing the fields position by position under `DATETIME_TUPLE_TAGS[1]` is `StoreFields` |
| Pixif.PixifImage.StoreDateParts | pixif.py:92-93 | the store loop stores field `i` under key `i` and keeps the base name |
| Pixif.DateParts | pixif.py:91 | `strftime(...).split()` succeeds exactly for years from 1900 on, and then yields the eight calendar fields |
| Pixif.ExpandedFields | pixif.py:91-93 | after expansion the keys are the old keys plus the eight calendar keys; these hold the zero-padded components and override any tag of the same name; other keys are unchanged |
| Pixif.ExpandedReads | pixif.py:91-93 | each stored calendar field reads back as its component |
| Pixif.ExpandedKeeps | pixif.py:93 | a non-calendar key keeps its value |
| Pixif.ExpandedKeySet | pixif.py:91-93 | expansion adds exactly the calendar keys and keeps `name` |
| Pixif.StoreFields | pixif.py:92-93 | stated by `Pixif.AssignTupleKeys` and `Pixif.StoreFieldsKeeps` |
| Pixif.Expanded | pixif.py:91-93 | stated by `Pixif.ExpandedFields`, `Pixif.ExpandedReads`, `Pixif.ExpandedKeeps` and `Pixif.ExpandedKeySet` |
| Pixif.PixifImage.GetDatetime | pixif.py:74-93 | the timestamp becomes `Resolve(tags)`; the call raises exactly when none resolved or the year is before 1900; otherwise the tags are the expanded ones, and a raising call leaves them untouched |
| Pixif.PixifImage.Initialise | pixif.py:51-52 | `get_tags` then `get_datetime`: the normalised tags, their resolved timestamp and the expanded result |
| Pixif.PixifImage.AsDict | pixif.py:95-96 | the dictionary always carries the base name under `name` |
| Pixif.ConstructionOutcome | pixif.py:41-52 | construction raises exactly when `ParseImage` is `None`, and otherwise yields its record |
| Pixif.NewPixifImage | pixif.py:41-52 | `PixifImage(filename)` yields a fresh, valid image with a timestamp exactly when the map is non-empty, a candidate parses and the year is at least 1900; its record is `ParseImage`'s |
| Pixif.ParseImageTags | pixif.py:41-52 | a parsed image holds its base name under `name`, the zero-padded year, month and day, and otherwise exactly the keys its identifiers contribute |
| Pixif.ParseImage | pixif.py:41-52 | stated by `Pixif.ParseImageTags` and `Pixif.ConstructionOutcome`; `Pixif.NewPixifImage` is proved against it |
| Pixif.KeepParsedAppend | pixif.py:117-126 | filtering a concatenation filters each part, in order |
| Pixif.KeepParsedMember | pixif.py:117-126 | a record is kept exactly when some file parses to it |
| Pixif.KeepParsedCount | pixif.py:117-126 | at most one record per file: none when all fail, one each when all succeed |
| Pixif.CollectSnoc | pixif.py:119-125 | one more file adds its record when construction succeeds, nothing otherwise |
| Pixif.KeepParsed | pixif.py:117-126 | stated by `Pixif.KeepParsedAppend`, `Pixif.KeepParsedMember` and `Pixif.KeepParsedCount` |
| Pixif.Collect | pixif.py:117-126 | the records of the files whose construction succeeds, in order: `Pixif.KeepParsed` over `Pixif.ParseImage`; `Pixif.FilesToPixif` is proved against it |
| Pixif.NextImage | pixif.py:120-125 | one turn of the loop: constructs the image and extends the kept records by it, if it did not raise |
| Pixif.AddImage | pixif.py:120-125 | one turn of the loop appends exactly the new image, if any, and keeps the earlier ones |
| Pixif.FilesToPixif | pixif.py:117-126 | returns fresh images whose records are exactly `Collect(files)`: the files whose construction did not raise, in input order |
| Pixif.DatedPathFormat | pixif.py:140 | binding `{y}/{y}-{m}-{d}/{n}` substitutes all four fields when all are present and fails otherwise |
| Pixif.DatedPathBasename | pixif.py:140 | a bound dated path ends in the base name of its last field |
| Pixif.SaveasTemplate | pixif.py:20 | the configured `saveas` is the dated-path template over `year`, `month`, `day`, `name` |
| Pixif.TestDestination | pixif.py:140 | the destination exists exactly when `year`, `month`, `day` and `name` are present, and is then `dst/<year>/<year>-<month>-<day>/<name>` |
| Pixif.RecordDestination | pixif.py:140 | every parsed image has the destination `dst/YYYY/YYYY-MM-DD/<basename>`, and the moved file keeps its source's base name |
| Pixif.Destination | pixif.py:140 | stated by `Pixif.TestDestination` and `Pixif.RecordDestination` |
| Pixif.MainDestination | pixif.py:140 | the target printed at line 140 for a parsed image is `test-out/YYYY/YYYY-MM-DD/<basename>`, under `TEST_CONFIG['dst']` with exactly one separator |

## Left out

- `open(filename, 'rb')` and `EXIF.process_file` (`pixif.py:43-44`) are I/O and an external decoder. Their result is the parameter `exif`, or `exifOf` in `FilesToPixif`. An empty map is the `'no EXIF data'` exception (`pixif.py:45-46`); an unreadable file also ends in a dropped image, so it is folded into the same case. The never-closed file handle is not modelled.
- `str(self.exif[tag])` (`pixif.py:67`): tag values are taken as already-converted strings.
- `PixifCollection` (`pixif.py:98-109`), `get_files` and its `os.walk` (`pixif.py:111-115`) and `read_config` (`pixif.py:36-38`) are filesystem I/O or stubs. The file list is a given sequence.
- The `debug` flag and every `print` (`pixif.py:70-71, 82-83, 86-87, 123-124, 128-139`) produce output only. Of the `__main__` block, only the destination expression of line 140 is modelled.
- `Calendar.Strptime` accepts exactly four year digits and two digits for each other field. Python's `strptime` also accepts shorter digit groups and some whitespace variations; that leniency is not modelled.
- `Template.Format`: format specs, conversions (`!r`) and attribute or index fields are not modelled; such a field is read as a plain name, which becomes a `KeyError` or a malformed-brace error. Two more cases differ from Python 2.7, and neither can arise with the fixed `saveas` of line 20. A `{` inside a field name, as in `{a{b}}`, is counted by Python as part of the name `a{b}` (a `KeyError`); the model reports it as `Malformed`. A numeric field such as `{0}` is positional in Python (an `IndexError`, since `format` gets only keyword arguments); the model looks `"0"` up among the attributes.
- `Text.IsSpace` covers the whitespace of Python 2 byte strings. Unicode whitespace is not modelled.
- The `except Exception` branches (`pixif.py:68-72, 85-88`) swallow failures the model does not raise. The modelled failures are `IndexError` from `split()[1]` and `ValueError` from `strptime`.
- `Pixif.FilesToPixif` does not restate `Valid()` for each image. Each image's record equals `ParseImage`'s, whose contents `Pixif.ParseImageTags` states.
