# Publication list generator — a Dafny model

This project models the core of `generate_pubs_toml.py`. The script fetches a
collection of CSL-JSON items from a reference manager and normalises each one into a
canonical entry. It then sorts the entries into a list of papers and a list of
datasets, newest first. It writes both lists to `publications.toml`, next to a `stats`
block that is curated by hand and kept from the previous file.

The model is split into modules, one per component:

- `Values` (values.dfy) holds decoded JSON values and the distinction `dict.get`
  draws: a missing key (`Absent`), a key holding null (`Null`) or a present value.
  It also holds the uncaught exceptions as a `Result`, and the Python built-ins the
  pipeline applies: truthiness, `v[0]`, `str()` and `lower()`.
- `Authors` (authors.dfy) is the author formatter `format_authors`. Its loop is the
  method `FormatAuthors`, proved equal to the function `FormattedAuthors`. The join
  rule is compared with an independent name-by-name description (`Spelled`).
- `Years` (years.dfy) is the date extractor `get_year`. It covers the
  `date-parts` stage, the free-text stages driven by the year pattern
  `\b(19|20)\d{2}\b` (`FindYear`, a leftmost match), and the catch-all that gives
  "N.D.".
- `Items` (items.dfy) is the per-item loop of `main`: the classifier and normaliser.
  `ProcessItems` is the loop. It is proved equal to `Partition`, a fold of the
  one-item function `Classify`.
- `Ordering` (ordering.dfy) is the sort: Python's stable sort in reverse, keyed by the
  year string. It is modelled as a stable insertion sort under Python's code-point
  order on strings.
- `Stats` (stats.dfy) is the stats preserver.
- `Pipeline` (pipeline.dfy) puts the document together. It also states what a
  rerun over the written document gives, and works one end-to-end example.

Behaviour of the code that the model keeps, which a reader might not expect:

- Only the exact (lower-cased) type `dataset` reaches the datasets list.
  `webpage`, `article` and every type other than the five paper types are dropped,
  even for a valid item.
- Undated entries ("N.D.") sort first in the descending lists, not last. The reason is
  that `'N'` follows every digit in code-point order (`Ordering.UndatedFirst`).
- The sort key's fallback `'0'` is never used, because every listed entry carries a
  year (`Pipeline.ListedEntries`).
- Exceptions inside the item loop are not caught. A `type` that is null, an `author`
  that is null, or a name descriptor with a null `family` or `given` next to the other
  key ends the whole run before anything is written (`Pipeline.Generate` returns
  `Err`).

## Model

| member | source | states |
|---|---|---|
| Values.Index0 | generate_pubs_toml.py:84-85 | `v[0]` succeeds exactly on a non-empty list or string, giving the list's first element or the string's first character as a string; every other value raises |
| Values.PyStr | generate_pubs_toml.py:85-90 | `str()` of a string is the string itself, of null is "None", and of an integer a non-empty string that starts with '-' exactly when the integer is negative |
| Values.PyStrIntRoundTrip | generate_pubs_toml.py:85 | `str()` of an integer is an optional '-' followed by the canonical decimal digits of its absolute value: they read back as that value and have no leading zero, so zero alone is "0" |
| Values.NatToDecimal | generate_pubs_toml.py:85 | `str(n)` is a non-empty string of decimal digits with no leading zero: its first digit is not '0' when n is positive or when it has more than one digit |
| Values.DecimalRoundTrip | generate_pubs_toml.py:85 | reading back the digits `str(n)` produced gives n again |
| Values.Lower | generate_pubs_toml.py:164 | `lower()` keeps the length, maps each capital letter to its small letter and leaves every other character alone |
| Values.LowerNormalises | generate_pubs_toml.py:164 | lowered text has no capitals, text without capitals is unchanged, and lowering twice is lowering once |
| Values.LowerCaseVariant | generate_pubs_toml.py:164 | strings that differ only in letter case lower to the same string, which is the one without capitals when it is among them |
| Authors.NameOf | generate_pubs_toml.py:54-63 | a descriptor raises exactly when `literal` is missing, `family` and `given` are both present, and one of them is null; a present `literal` wins; with `family` and `given` the name is given, a space, then family; `family` alone gives the family name, and a null `family` alone gives ""; no `literal` and no `family` gives no name |
| Authors.Names | generate_pubs_toml.py:52-66 | the loop keeps at most one name per descriptor, and no kept name is empty |
| Authors.NamesConcat | generate_pubs_toml.py:53-66 | the names of a concatenation are the names of its parts in order; the first exception wins |
| Authors.NamesSingle | generate_pubs_toml.py:53-66 | one descriptor contributes its exception, nothing (empty name), or exactly its name |
| Authors.NamesErrPropagates | generate_pubs_toml.py:53-66 | once a prefix raises, the whole list raises the same exception |
| Authors.NamesErrIff | generate_pubs_toml.py:53-66 | the loop raises if and only if some descriptor raises |
| Authors.NamesNoneIff | generate_pubs_toml.py:64-70 | no name is collected if and only if every descriptor yields an empty name |
| Authors.Join | generate_pubs_toml.py:68-77 | the join equals the name-by-name description: " and " between two names; ", " and a final ", and " (the Oxford comma) for three or more |
| Authors.JoinEmptyIff | generate_pubs_toml.py:68-70 | with no empty name in the list, the joined string is empty exactly when there are no names |
| Authors.FormattedAuthorsCases | generate_pubs_toml.py:50-77 | `format_authors` raises exactly when some descriptor raises, and returns "" exactly when every descriptor yields an empty name |
| Authors.FormatAuthors | generate_pubs_toml.py:50-77 | the loop with its early exit computes `FormattedAuthors` |
| Years.FindYear | generate_pubs_toml.py:90-92 | the result is a match of the year pattern (19 or 20 and two more digits, not glued to a word character) at or after the start position with no earlier match; None only when there is no match at all |
| Years.DatePartsStage | generate_pubs_toml.py:82-85 | the `date-parts` stage returns a year built from `date-parts[0][0]`; it raises exactly when `date-parts` is truthy and indexing it or its first element fails, and falls through exactly when `date-parts` is missing, falsy or has a falsy first element |
| Years.TextStage | generate_pubs_toml.py:87-92 | a free-text stage never raises; it returns a match of the year pattern in `str()` of the field, and falls through exactly when the field is missing, null, or holds no match |
| Years.GetYear | generate_pubs_toml.py:79-96 | a non-dict `issued` is "N.D."; for a dict, the result is "N.D.", `str(date-parts[0][0])`, or a year-pattern match inside `str(raw)` or `str(literal)`; whenever the `date-parts` stage returns a year (a list entry or a string's first character alike), that year is the result |
| Years.YearFromDateParts | generate_pubs_toml.py:82-85 | a well-formed `date-parts` decides the year, whatever the free-text fields hold; an integer year reads back as the same number |
| Years.MalformedDatePartsUndated | generate_pubs_toml.py:81-96 | indexing of `date-parts` that raises gives "N.D." at once, without consulting `raw` or `literal` |
| Years.YearFromText | generate_pubs_toml.py:86-96 | without a usable `date-parts`, the match in `raw` wins, then the match in `literal`, and otherwise the result is "N.D." |
| Years.TextYearIsLeftmostMatch | generate_pubs_toml.py:90-92 | the year taken from free text is the leftmost match of the pattern |
| Years.StructuredExamples | generate_pubs_toml.py:79-96 | `[[1999, 5]]` gives "1999"; an empty dict and a string `issued` give "N.D." |
| Years.StringDatePartsExample | generate_pubs_toml.py:82-85 | a `date-parts` of `["2020"]` gives "2", the string's first character, even when `raw` holds a year |
| Years.TextExample | generate_pubs_toml.py:87-92 | a `literal` of "Spring 2003 release" gives "2003" |
| Years.SearchExample | generate_pubs_toml.py:90-92 | the search skips "Spring" and finds the year at position 7 of "Spring 2003 release" |
| Items.EntryType | generate_pubs_toml.py:164 | the entry type is the lower-cased `type`, "article-journal" when the key is missing; it raises exactly when `type` is null |
| Items.AuthorList | generate_pubs_toml.py:167 | the descriptors are the item's `author` list unchanged, `[]` when the key is missing; iterating raises exactly when `author` is null |
| Items.Issued | generate_pubs_toml.py:168 | the date record is the item's `issued` value unchanged, `{}` when the key is missing |
| Items.MakeDraft | generate_pubs_toml.py:165-171 | the draft entry has exactly the keys title, authors, year, link and doi; the title is the item's title, "Untitled" when missing and None when null; the authors and year are the ones given; link and doi are set exactly when `URL` and `DOI` are present |
| Items.Journal | generate_pubs_toml.py:178 | the journal is the container title, else the publisher, else "Unknown Journal/Venue"; it is None exactly when the key chosen holds null |
| Items.Venue | generate_pubs_toml.py:181 | the venue is the publisher, else the archive, else "Unknown Repository"; it is None exactly when the key chosen holds null |
| Items.DropNone | generate_pubs_toml.py:179 | the comprehension keeps exactly the keys whose value is not None, with their values |
| Items.DraftEntry | generate_pubs_toml.py:165-182 | a draft that passes the rejection test becomes an entry whose title is the item's own title, with the authors and year given, and with `link`, `doi` and the list's own key present exactly when their source value is not None |
| Items.ClassifyContract | generate_pubs_toml.py:163-182 | one item raises exactly when its `type`, its `author` list or a name descriptor raises; a paper has one of the five paper types and a dataset the type "dataset", each with the item's own title, its list's key set, the formatted authors and the extracted year |
| Items.Partition | generate_pubs_toml.py:159-184 | the two lists together hold at most one entry per item |
| Items.PartitionConcat | generate_pubs_toml.py:163-184 | items are processed independently and in order: the lists of a concatenation are the concatenated lists, and the first exception wins |
| Items.ListedEntriesClassified | generate_pubs_toml.py:177-182 | every listed entry is the entry of some item classified into that list |
| Items.ClassifiedListed | generate_pubs_toml.py:177-182 | conversely, when the run completes, the entry of every item classified as a paper or a dataset is in that list |
| Items.OutcomeWellFormed | generate_pubs_toml.py:172-182 | a paper or dataset outcome has a real title, authors and a year; papers carry no `venue` and datasets no `journal` |
| Items.ListedWellFormed | generate_pubs_toml.py:172-184 | the same holds for every entry of both lists |
| Items.PartitionErrIff | generate_pubs_toml.py:163-184 | the loop raises if and only if some item raises |
| Items.PartitionErrPropagates | generate_pubs_toml.py:163-184 | once a prefix of the items raises, the whole run raises the same exception |
| Items.ClassifiedByType | generate_pubs_toml.py:177-182 | a valid item is a paper exactly when its type is one of the five paper types, a dataset exactly when it is "dataset", and dropped otherwise |
| Items.TypeDefaultsAndCase | generate_pubs_toml.py:164 | a missing type counts as "article-journal", a paper type; "Dataset" is lowered to "dataset" |
| Items.TypeNamesLowerCase | generate_pubs_toml.py:177-180 | the five paper types and "dataset" contain no capitals |
| Items.TypeCaseVariant | generate_pubs_toml.py:164-180 | an item whose type is any case variant of a paper type or of "dataset" gets that type |
| Items.RejectedWhateverType | generate_pubs_toml.py:164-175 | when neither `type` nor `author` is null and no descriptor raises, an item with a missing `author` key, no descriptors, only nameless descriptors, or a missing, null, empty or "Untitled" title is rejected whatever its type |
| Items.OtherTypesDropped | generate_pubs_toml.py:177-182 | an item whose lower-cased type is neither one of the five paper types nor "dataset" reaches no list |
| Items.WebpageAndArticleDropped | generate_pubs_toml.py:177-182 | in particular `webpage` and `article`, in any letter case, reach no list |
| Items.ProcessItem | generate_pubs_toml.py:164-182 | one turn of the loop, with the draft entry updated in place, computes `Classify` |
| Items.ProcessItems | generate_pubs_toml.py:159-184 | the loop, which updates the draft entry in place and exits early on an exception, computes `Partition` |
| Ordering.StrLeReflexive | generate_pubs_toml.py:189-190 | string comparison is reflexive |
| Ordering.StrLeTotal | generate_pubs_toml.py:189-190 | any two year strings are comparable |
| Ordering.StrLeTransitive | generate_pubs_toml.py:189-190 | string comparison is transitive |
| Ordering.InsertPermutation | generate_pubs_toml.py:189-190 | inserting one entry adds exactly that entry to the multiset |
| Ordering.InsertDescending | generate_pubs_toml.py:189-190 | insertion keeps a list non-increasing by year |
| Ordering.SortByYear | generate_pubs_toml.py:189-190 | each sorted list is a permutation of its input |
| Ordering.SortDescending | generate_pubs_toml.py:189-190 | each sorted list is non-increasing by year under string comparison |
| Ordering.InsertWithYear | generate_pubs_toml.py:189-190 | insertion places the entry ahead of the entries sharing its year and leaves their order alone |
| Ordering.SortStable | generate_pubs_toml.py:189-190 | the sort is stable: the entries sharing a year keep their input order |
| Ordering.UndatedFirst | generate_pubs_toml.py:189-190 | every "N.D." entry comes before every entry whose year starts with a digit |
| Ordering.UndatedFirstExample | generate_pubs_toml.py:189-190 | years 2020, N.D., 2022 come out as N.D., 2022, 2020 |
| Stats.SelectStats | generate_pubs_toml.py:117-127 | a prior document that is a dict with `stats` has that value kept verbatim; otherwise the defaults are used: zero citations, zero h-index and the scholar link |
| Pipeline.Generate | generate_pubs_toml.py:163-191 | a run raises exactly when some item raises; otherwise the document has the selected stats, and each list is non-increasing by year, a permutation of the classified entries, and stable within a year |
| Pipeline.Run | generate_pubs_toml.py:159-191 | processing and sorting compute `Generate` |
| Pipeline.ListedEntries | generate_pubs_toml.py:172-190 | every written entry has a real title, authors and a year that is its sort key; papers carry no `venue` and datasets no `journal` |
| Pipeline.RerunKeepsStats | generate_pubs_toml.py:117-127 | a rerun over a written document keeps that document's stats, and rebuilds the lists from the items alone |
| Pipeline.Idempotent | generate_pubs_toml.py:117-191 | rerunning over the same items with the document a run wrote writes the same document again |
| Pipeline.ExampleArticleClassified | generate_pubs_toml.py:163-179 | a journal article with one author and a 2021 date becomes a paper with the fallback journal "Unknown Journal/Venue" |
| Pipeline.ExampleDatasetClassified | generate_pubs_toml.py:163-182 | a dataset with two organisational authors becomes "A and B" with the fallback venue "Unknown Repository" |
| Pipeline.EndToEndExample | generate_pubs_toml.py:159-191 | those two items under no prior document give the default stats, one paper and one dataset |

## Left out

- Fetching from the reference manager's API (lines 138-157) is not modelled. The items
  arrive as a parameter, and the fetch's error exit is not modelled.
- Reading the prior TOML file is not modelled. The prior document arrives as an
  `Option<Json>`, None when the file is missing or cannot be read or decoded.
- The TOML encoding and the write are not modelled. `Pipeline.Idempotent` and
  `Pipeline.RerunKeepsStats` assume that reading the written file back gives
  `DocumentToJson` of the document unchanged.
- Argument parsing, the environment variables and the credential check with
  `sys.exit` (lines 100-114) are not modelled. The scholar id is a parameter.
- The progress and debug messages are not modelled. This includes the report after
  the write (lines 199-203), whose indexing of `citations` happens after the file is
  written.
- `Values.Lower`: only ASCII letters are lower-cased; Unicode case mapping is not
  modelled.
- `Years.FindYear`: `\d` and `\w` are ASCII only; Python also accepts other Unicode
  digits and letters.
- `Values.PyStr`: `str()` of a list or a dict gives a placeholder rather than
  Python's repr. A year hidden inside such a repr is therefore not found.
- JSON booleans and floats are not modelled.
- An entry is a map, so the order of its keys is not modelled. Python's dict keeps
  title, authors, year, link, doi, then journal or venue (lines 165-182), and the
  written TOML lists the keys in that order.
- In the title, type, URL, DOI, container-title, publisher, archive and name-part
  fields, only strings and null are modelled. A value of another type, for example a
  number, is not modelled.
- An `author` value that is neither a list nor null is not modelled. Iterating a
  string, for instance, would visit its characters. Descriptors that are not dicts are
  not modelled either.

