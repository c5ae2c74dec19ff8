/** The record classifier and normaliser: each raw CSL-JSON item becomes a canonical
    entry in the papers list, one in the datasets list, or nothing. */
module Items {
  import opened Values
  import opened Authors
  import Years

  /** A raw item as the reference manager delivers it; only the keys the pipeline reads
      are kept. `kind` is the item's `type` key. A key missing from the item is `Absent`,
      a key holding JSON null is `Null`. `issued` is `None` when the key is missing. */
  datatype RawItem = RawItem(
    kind: Field<string>,
    title: Field<string>,
    author: Field<seq<Author>>,
    issued: Option<Json>,
    url: Field<string>,
    doi: Field<string>,
    containerTitle: Field<string>,
    publisher: Field<string>,
    archive: Field<string>)

  /** A draft entry: keys to values, `None` standing for Python's None. */
  type Draft = map<string, Option<string>>

  /** A canonical entry, with the keys whose value was None removed. */
  type Entry = map<string, string>

  /** The lists the processing loop builds. */
  datatype Lists = Lists(papers: seq<Entry>, datasets: seq<Entry>)

  /** What becomes of one item. */
  datatype Outcome = Paper(entry: Entry) | Dataset(entry: Entry) | Rejected | Unclassified

  const PaperTypes: seq<string> := ["article-journal", "paper-conference", "chapter", "report", "thesis"]
  const DatasetType: string := "dataset"
  const DefaultType: string := "article-journal"
  const Placeholder: string := "Untitled"
  const UnknownJournal: string := "Unknown Journal/Venue"
  const UnknownRepository: string := "Unknown Repository"

  /** The lower-cased `type`, "article-journal" when missing (the default is already in
      lower case); `None.lower()` raises. */
  function EntryType(item: RawItem): (r: Result<string>)
    ensures item.kind.Absent? ==> r == Ok(DefaultType)
    ensures r.Err? <==> item.kind.Null?
    ensures item.kind.Present? ==> r == Ok(Lower(item.kind.value))
  {
    match item.kind
    case Absent => Ok(DefaultType)
    case Null => Err(AttributeError)
    case Present(t) => Ok(Lower(t))
  }

  /** The `author` list, `[]` when missing; iterating None raises. */
  function AuthorList(item: RawItem): (r: Result<seq<Author>>)
    ensures item.author.Absent? ==> r == Ok([])
    ensures r.Err? <==> item.author.Null?
    ensures item.author.Present? ==> r == Ok(item.author.value)
  {
    match item.author
    case Absent => Ok([])
    case Null => Err(TypeError)
    case Present(authors) => Ok(authors)
  }

  /** The `issued` value, `{}` when missing. */
  function Issued(item: RawItem): (r: Json)
    ensures item.issued.None? ==> r == JMap(map[])
    ensures item.issued.Some? ==> r == item.issued.value
  {
    match item.issued
    case None => JMap(map[])
    case Some(v) => v
  }

  /** The draft entry built with defaults before any check. */
  function MakeDraft(item: RawItem, authors: string): (d: Draft)
    ensures d.Keys == {"title", "authors", "year", "link", "doi"}
    ensures item.title.Present? ==> d["title"] == Some(item.title.value)
    ensures item.title.Absent? ==> d["title"] == Some(Placeholder)
    ensures item.title.Null? ==> d["title"].None?
    ensures d["authors"] == Some(authors) && d["year"] == Some(Years.GetYear(Issued(item)))
    ensures d["link"].Some? <==> item.url.Present?
    ensures d["doi"].Some? <==> item.doi.Present?
  {
    map[
      "title" := Get(item.title, Some(Placeholder)),
      "authors" := Some(authors),
      "year" := Some(Years.GetYear(Issued(item))),
      "link" := Get(item.url, None),
      "doi" := Get(item.doi, None)]
  }

  /** The rejection rule: no authors, or a title that is None, empty or the placeholder. */
  predicate Rejects(title: Option<string>, authors: string)
  {
    authors == "" || title.None? || title.value == "" || title.value == Placeholder
  }

  /** `container-title`, else `publisher`, else "Unknown Journal/Venue"; a key present
      with null stops the chain with None. */
  function Journal(item: RawItem): (r: Option<string>)
    ensures item.containerTitle.Present? ==> r == Some(item.containerTitle.value)
    ensures item.containerTitle.Absent? && item.publisher.Present? ==> r == Some(item.publisher.value)
    ensures item.containerTitle.Absent? && item.publisher.Absent? ==> r == Some(UnknownJournal)
    ensures r.None? <==> item.containerTitle.Null? || (item.containerTitle.Absent? && item.publisher.Null?)
  {
    Get(item.containerTitle, Get(item.publisher, Some(UnknownJournal)))
  }

  /** `publisher`, else `archive`, else "Unknown Repository". */
  function Venue(item: RawItem): (r: Option<string>)
    ensures item.publisher.Present? ==> r == Some(item.publisher.value)
    ensures item.publisher.Absent? && item.archive.Present? ==> r == Some(item.archive.value)
    ensures item.publisher.Absent? && item.archive.Absent? ==> r == Some(UnknownRepository)
    ensures r.None? <==> item.publisher.Null? || (item.publisher.Absent? && item.archive.Null?)
  {
    Get(item.publisher, Get(item.archive, Some(UnknownRepository)))
  }

  /** The entry a draft becomes once the keys whose value is None are dropped. */
  function DropNone(d: Draft): (e: Entry)
    ensures forall k :: k in e <==> k in d && d[k].Some?
    ensures forall k :: k in e ==> d[k] == Some(e[k])
  {
    map k | k in d && d[k].Some? :: d[k].value
  }

  /** A listed entry carries a real title and authors, and the year the extractor gave. */
  predicate WellFormed(e: Entry)
  {
    "title" in e && e["title"] != "" && e["title"] != Placeholder
    && "authors" in e && e["authors"] != ""
    && "year" in e
  }

  /** The keys a listed entry may carry: the three always set, `link` and `doi`, and the
      list's own `key` (`journal` or `venue`), each optional key present exactly when its
      source value is not None. */
  predicate Shaped(item: RawItem, e: Entry, key: string, value: Option<string>)
  {
    e.Keys <= {"title", "authors", "year", "link", "doi", key}
    && ("link" in e <==> item.url.Present?) && ("link" in e ==> e["link"] == item.url.value)
    && ("doi" in e <==> item.doi.Present?) && ("doi" in e ==> e["doi"] == item.doi.value)
    && (key in e <==> value.Some?) && (key in e ==> e[key] == value.value)
  }

  /** The entry built from the draft once the list's own `key` is set. */
  lemma DraftEntry(item: RawItem, authors: string, key: string, value: Option<string>)
    requires key !in {"title", "authors", "year", "link", "doi"}
    requires !Rejects(Get(item.title, Some(Placeholder)), authors)
    ensures var e := DropNone(MakeDraft(item, authors)[key := value]);
            WellFormed(e) && Shaped(item, e, key, value)
            && item.title.Present? && e["title"] == item.title.value
            && e["authors"] == authors && e["year"] == Years.GetYear(Issued(item))
  {
    var d := MakeDraft(item, authors)[key := value];
    var e := DropNone(d);
    assert d["title"] == Get(item.title, Some(Placeholder));
    assert d["authors"] == Some(authors) && d["year"] == Some(Years.GetYear(Issued(item)));
    assert d["link"] == Get(item.url, None) && d["doi"] == Get(item.doi, None);
  }

  /** One turn of the processing loop. An item whose `type` or `author` makes Python
      raise ends the run; a rejected item and one of another type are skipped. */
  function Classify(item: RawItem): Result<Outcome>
  {
    match EntryType(item)
    case Err(e) => Err(e)
    case Ok(entryType) =>
      match AuthorList(item)
      case Err(e) => Err(e)
      case Ok(list) =>
        match FormattedAuthors(list)
        case Err(e) => Err(e)
        case Ok(authors) =>
          var draft := MakeDraft(item, authors);
          if Rejects(draft["title"], authors) then Ok(Rejected)
          else if entryType in PaperTypes then Ok(Paper(DropNone(draft["journal" := Journal(item)])))
          else if entryType == DatasetType then Ok(Dataset(DropNone(draft["venue" := Venue(item)])))
          else Ok(Unclassified)
  }

  /** What one turn of the loop yields: an exception exactly when the `type`, the
      `author` list or a name descriptor raises; a listed entry carries the formatted
      authors, the extracted year, and the optional keys of its list. */
  lemma ClassifyContract(item: RawItem)
    ensures Classify(item).Err? <==> EntryType(item).Err? || AuthorList(item).Err?
                                     || FormattedAuthors(AuthorList(item).value).Err?
    ensures Classify(item).Ok? && Classify(item).value.Paper? ==>
              EntryType(item).value in PaperTypes && WellFormed(Classify(item).value.entry)
              && Shaped(item, Classify(item).value.entry, "journal", Journal(item))
              && item.title.Present? && Classify(item).value.entry["title"] == item.title.value
              && Classify(item).value.entry["authors"] == FormattedAuthors(AuthorList(item).value).value
              && Classify(item).value.entry["year"] == Years.GetYear(Issued(item))
    ensures Classify(item).Ok? && Classify(item).value.Dataset? ==>
              EntryType(item).value == DatasetType && WellFormed(Classify(item).value.entry)
              && Shaped(item, Classify(item).value.entry, "venue", Venue(item))
              && item.title.Present? && Classify(item).value.entry["title"] == item.title.value
              && Classify(item).value.entry["authors"] == FormattedAuthors(AuthorList(item).value).value
              && Classify(item).value.entry["year"] == Years.GetYear(Issued(item))
  {
    if Classify(item).Ok? && !Classify(item).value.Rejected? && !Classify(item).value.Unclassified? {
      var authors := FormattedAuthors(AuthorList(item).value).value;
      if EntryType(item).value in PaperTypes {
        DraftEntry(item, authors, "journal", Journal(item));
      } else {
        DraftEntry(item, authors, "venue", Venue(item));
      }
    }
  }

  /** Appends one item's outcome to the lists built so far. */
  function Add(sofar: Result<Lists>, item: RawItem): Result<Lists>
  {
    if sofar.Err? then sofar
    else
      match Classify(item)
      case Err(e) => Err(e)
      case Ok(Paper(e)) => Ok(sofar.value.(papers := sofar.value.papers + [e]))
      case Ok(Dataset(e)) => Ok(sofar.value.(datasets := sofar.value.datasets + [e]))
      case Ok(_) => sofar
  }

  /** The two lists the loop builds over all items, or the exception that ends the run. */
  function Partition(items: seq<RawItem>): (r: Result<Lists>)
    ensures r.Ok? ==> |r.value.papers| + |r.value.datasets| <= |items|
  {
    if items == [] then Ok(Lists([], []))
    else Add(Partition(items[..|items| - 1]), items[|items| - 1])
  }

  /** Lists of two consecutive runs of the loop, the first one's exception winning. */
  function ConcatLists(a: Result<Lists>, b: Result<Lists>): Result<Lists>
  {
    if a.Err? then a
    else if b.Err? then b
    else Ok(Lists(a.value.papers + b.value.papers, a.value.datasets + b.value.datasets))
  }

  lemma AddConcat(p: Result<Lists>, q: Result<Lists>, item: RawItem)
    ensures Add(ConcatLists(p, q), item) == ConcatLists(p, Add(q, item))
  {
    if p.Ok? && q.Ok? && Classify(item).Ok? {
      var e := Classify(item).value;
      if e.Paper? {
        assert p.value.papers + (q.value.papers + [e.entry]) == (p.value.papers + q.value.papers) + [e.entry];
      } else if e.Dataset? {
        assert p.value.datasets + (q.value.datasets + [e.entry])
            == (p.value.datasets + q.value.datasets) + [e.entry];
      }
    }
  }

  /** Items are processed independently and in order: a skipped item does not stop the
      ones after it, and the lists of a concatenation are the concatenated lists. */
  lemma {:induction false} PartitionConcat(xs: seq<RawItem>, ys: seq<RawItem>)
    ensures Partition(xs + ys) == ConcatLists(Partition(xs), Partition(ys))
    decreases |ys|
  {
    if ys == [] {
      assert xs + ys == xs;
      ConcatEmpty(Partition(xs));
    } else {
      var zs, init, last := xs + ys, ys[..|ys| - 1], ys[|ys| - 1];
      assert zs[..|zs| - 1] == xs + init && zs[|zs| - 1] == last;
      assert Partition(zs) == Add(Partition(xs + init), last);
      assert Partition(ys) == Add(Partition(init), last);
      PartitionConcat(xs, init);
      AddConcat(Partition(xs), Partition(init), last);
    }
  }

  lemma ConcatEmpty(p: Result<Lists>)
    ensures ConcatLists(p, Ok(Lists([], []))) == p
  {
    if p.Ok? {
      assert p.value.papers + [] == p.value.papers;
      assert p.value.datasets + [] == p.value.datasets;
    }
  }

  /** One turn appends at most the item's own entry to each list. */
  lemma AddListed(l: Lists, item: RawItem)
    requires Add(Ok(l), item).Ok?
    ensures forall e :: e in Add(Ok(l), item).value.papers ==> e in l.papers || Classify(item) == Ok(Paper(e))
    ensures forall e :: e in Add(Ok(l), item).value.datasets ==>
              e in l.datasets || Classify(item) == Ok(Dataset(e))
  {
  }

  /** Every listed entry comes from an item classified into that list. */
  lemma {:induction false} ListedEntriesClassified(items: seq<RawItem>)
    requires Partition(items).Ok?
    ensures forall e :: e in Partition(items).value.papers ==>
              exists k :: 0 <= k < |items| && Classify(items[k]) == Ok(Paper(e))
    ensures forall e :: e in Partition(items).value.datasets ==>
              exists k :: 0 <= k < |items| && Classify(items[k]) == Ok(Dataset(e))
  {
    if items != [] {
      var init, last := items[..|items| - 1], items[|items| - 1];
      assert Partition(items) == Add(Partition(init), last);
      ListedEntriesClassified(init);
      AddListed(Partition(init).value, last);
      assert forall k :: 0 <= k < |init| ==> init[k] == items[k];
    }
  }

  /** Conversely, no paper or dataset is lost: when the run completes, the entry of every
      item that classifies as a paper (dataset) is in the paper (dataset) list. */
  lemma {:induction false} ClassifiedListed(items: seq<RawItem>, k: nat)
    requires Partition(items).Ok? && k < |items|
    ensures Classify(items[k]).Ok? && Classify(items[k]).value.Paper? ==>
              Classify(items[k]).value.entry in Partition(items).value.papers
    ensures Classify(items[k]).Ok? && Classify(items[k]).value.Dataset? ==>
              Classify(items[k]).value.entry in Partition(items).value.datasets
  {
    var init, last := items[..|items| - 1], items[|items| - 1];
    assert Partition(items) == Add(Partition(init), last);
    AddErr(Partition(init), last);
    if k == |items| - 1 {
      AddListsOwn(Partition(init), last);
    } else {
      assert init[k] == items[k];
      ClassifiedListed(init, k);
      AddKeeps(Partition(init).value, last);
    }
  }

  /** One turn keeps what was listed before it. */
  lemma AddKeeps(l: Lists, item: RawItem)
    requires Add(Ok(l), item).Ok?
    ensures forall e :: e in l.papers ==> e in Add(Ok(l), item).value.papers
    ensures forall e :: e in l.datasets ==> e in Add(Ok(l), item).value.datasets
  {
  }

  /** One turn lists the item's own paper or dataset entry. */
  lemma AddListsOwn(sofar: Result<Lists>, item: RawItem)
    ensures Add(sofar, item).Ok? && Classify(item).Ok? && Classify(item).value.Paper? ==>
              Classify(item).value.entry in Add(sofar, item).value.papers
    ensures Add(sofar, item).Ok? && Classify(item).Ok? && Classify(item).value.Dataset? ==>
              Classify(item).value.entry in Add(sofar, item).value.datasets
  {
  }

  lemma OutcomeWellFormed(item: RawItem)
    ensures Classify(item).Ok? && Classify(item).value.Paper? ==>
              WellFormed(Classify(item).value.entry) && "venue" !in Classify(item).value.entry
    ensures Classify(item).Ok? && Classify(item).value.Dataset? ==>
              WellFormed(Classify(item).value.entry) && "journal" !in Classify(item).value.entry
  {
    ClassifyContract(item);
  }

  /** Every listed entry has a real title, authors and a year; papers carry no `venue`
      and datasets no `journal`. */
  lemma ListedWellFormed(items: seq<RawItem>)
    requires Partition(items).Ok?
    ensures forall e :: e in Partition(items).value.papers ==> WellFormed(e) && "venue" !in e
    ensures forall e :: e in Partition(items).value.datasets ==> WellFormed(e) && "journal" !in e
  {
    ListedEntriesClassified(items);
    forall e | e in Partition(items).value.papers ensures WellFormed(e) && "venue" !in e {
      var k :| 0 <= k < |items| && Classify(items[k]) == Ok(Paper(e));
      OutcomeWellFormed(items[k]);
    }
    forall e | e in Partition(items).value.datasets ensures WellFormed(e) && "journal" !in e {
      var k :| 0 <= k < |items| && Classify(items[k]) == Ok(Dataset(e));
      OutcomeWellFormed(items[k]);
    }
  }

  /** One turn raises when the turns before it did or the item itself raises. */
  lemma AddErr(sofar: Result<Lists>, item: RawItem)
    ensures Add(sofar, item).Err? <==> sofar.Err? || Classify(item).Err?
  {
  }

  /** The run ends with an exception exactly when some item raises. */
  lemma {:induction false} PartitionErrIff(items: seq<RawItem>)
    ensures Partition(items).Err? <==> exists k :: 0 <= k < |items| && Classify(items[k]).Err?
  {
    if items != [] {
      var init, last := items[..|items| - 1], items[|items| - 1];
      PartitionErrIff(init);
      assert Partition(items) == Add(Partition(init), last);
      AddErr(Partition(init), last);
      if Partition(items).Err? {
        if Partition(init).Err? {
          var k :| 0 <= k < |init| && Classify(init[k]).Err?;
          assert items[k] == init[k];
        } else {
          assert Classify(items[|items| - 1]).Err?;
        }
      } else {
        forall k | 0 <= k < |items| ensures Classify(items[k]).Ok? {
          if k < |init| {
            assert items[k] == init[k];
          }
        }
      }
    }
  }

  /** Once the items before position j raise, the run ends with that exception. */
  lemma {:induction false} PartitionErrPropagates(items: seq<RawItem>, j: nat)
    requires j <= |items| && Partition(items[..j]).Err?
    ensures Partition(items) == Partition(items[..j])
    decreases |items| - j
  {
    if j < |items| {
      var init := items[..|items| - 1];
      assert init[..j] == items[..j];
      PartitionErrPropagates(init, j);
    } else {
      assert items[..j] == items;
    }
  }

  /** Classification by type: only the five paper types reach the papers list and only
      the exact type "dataset" reaches the datasets list; "webpage", "article" and every
      other type are dropped, even for a valid item. */
  lemma ClassifiedByType(item: RawItem)
    requires EntryType(item).Ok? && AuthorList(item).Ok?
    requires FormattedAuthors(AuthorList(item).value).Ok?
    requires !Rejects(Get(item.title, Some(Placeholder)), FormattedAuthors(AuthorList(item).value).value)
    ensures Classify(item).Ok?
    ensures Classify(item).value.Paper? <==> EntryType(item).value in PaperTypes
    ensures Classify(item).value.Dataset? <==> EntryType(item).value == DatasetType
    ensures Classify(item).value.Unclassified? <==>
              EntryType(item).value !in PaperTypes && EntryType(item).value != DatasetType
  {
  }

  /** A missing `type` counts as a journal article, and the type test ignores ASCII case. */
  lemma TypeDefaultsAndCase(item: RawItem)
    ensures item.kind.Absent? ==> EntryType(item) == Ok(DefaultType) && DefaultType in PaperTypes
    ensures item.kind == Present("Dataset") ==> EntryType(item) == Ok(DatasetType)
  {
    if item.kind == Present("Dataset") {
      assert Lower("Dataset")[0] == 'd';
      assert Lower("Dataset") == DatasetType;
    }
  }

  /** The six type names the classifier tests against are written without capitals. */
  lemma TypeNamesLowerCase()
    ensures forall t :: t in PaperTypes ==> NoCapitals(t)
    ensures NoCapitals(DatasetType)
  {
    forall t | t in PaperTypes ensures NoCapitals(t) {
      assert t == "article-journal" || t == "paper-conference" || t == "chapter" || t == "report" || t == "thesis";
    }
  }

  /** The type test ignores ASCII case: any case variant of a paper type or of "dataset"
      ("Article-Journal", "DATASET") is read as that type. */
  lemma TypeCaseVariant(item: RawItem, t: string)
    requires item.kind.Present? && CaseVariant(item.kind.value, t)
    requires t in PaperTypes || t == DatasetType
    ensures EntryType(item) == Ok(t)
  {
    TypeNamesLowerCase();
    LowerCaseVariant(item.kind.value, t);
  }

  /** The rejection rule, whatever the type: an item with no authors (a missing `author`
      key, an empty list, or descriptors that all yield an empty name) or without a real
      title never reaches either list, provided nothing raises first. */
  lemma RejectedWhateverType(item: RawItem)
    requires !item.kind.Null? && !item.author.Null?
    requires var list := if item.author.Present? then item.author.value else [];
             (forall k :: 0 <= k < |list| ==> NameOf(list[k]).Ok?)
             && ((forall k :: 0 <= k < |list| ==> NameOf(list[k]) == Ok(""))
                 || !item.title.Present? || item.title.value == "" || item.title.value == Placeholder)
    ensures Classify(item) == Ok(Rejected)
  {
    var list := if item.author.Present? then item.author.value else [];
    assert AuthorList(item) == Ok(list);
    FormattedAuthorsCases(list);
  }

  /** Only the five paper types and the exact lower-cased "dataset" reach a list: any
      other type is dropped, whether or not the item would be rejected. */
  lemma OtherTypesDropped(item: RawItem)
    requires item.kind.Present?
    requires Lower(item.kind.value) !in PaperTypes && Lower(item.kind.value) != DatasetType
    ensures Classify(item).Ok? ==> Classify(item).value.Rejected? || Classify(item).value.Unclassified?
  {
  }

  /** In particular web pages and plain articles, in any letter case, are dropped. */
  lemma WebpageAndArticleDropped(item: RawItem)
    requires item.kind.Present? && Lower(item.kind.value) in ["webpage", "article"]
    ensures Classify(item).Ok? ==> Classify(item).value.Rejected? || Classify(item).value.Unclassified?
  {
    OtherTypesDropped(item);
  }

  /** One turn of the loop once the type and the authors are known. */
  lemma ClassifyStep(item: RawItem, entryType: string, authors: string)
    requires EntryType(item) == Ok(entryType) && AuthorList(item).Ok?
    requires FormattedAuthors(AuthorList(item).value) == Ok(authors)
    ensures var d := MakeDraft(item, authors);
            Classify(item)
            == if Rejects(d["title"], authors) then Ok(Rejected)
               else if entryType in PaperTypes then Ok(Paper(DropNone(d["journal" := Journal(item)])))
               else if entryType == DatasetType then Ok(Dataset(DropNone(d["venue" := Venue(item)])))
               else Ok(Unclassified)
  {
  }

  /** The body of the processing loop for one item: the type and the authors are
      computed first, then the draft entry, which is updated in place with the list's
      own key before its None values are dropped. */
  method ProcessItem(item: RawItem) returns (r: Result<Outcome>)
    ensures r == Classify(item)
  {
    if item.kind.Null? {
      return Err(AttributeError);
    }
    var entryType := if item.kind.Present? then Lower(item.kind.value) else DefaultType;
    if item.author.Null? {
      return Err(TypeError);
    }
    var authors := FormatAuthors(if item.author.Present? then item.author.value else []);
    if authors.Err? {
      return Err(authors.error);
    }
    assert EntryType(item) == Ok(entryType);
    ClassifyStep(item, entryType, authors.value);
    var entryData := MakeDraft(item, authors.value);
    if Rejects(entryData["title"], authors.value) {
      return Ok(Rejected);
    }
    if entryType in PaperTypes {
      entryData := entryData["journal" := Journal(item)];
      r := Ok(Paper(DropNone(entryData)));
    } else if entryType == DatasetType {
      entryData := entryData["venue" := Venue(item)];
      r := Ok(Dataset(DropNone(entryData)));
    } else {
      r := Ok(Unclassified);
    }
  }

  /** The processing loop of `main`: builds the two lists item by item; an exception
      ends the run. */
  method ProcessItems(items: seq<RawItem>) returns (r: Result<Lists>)
    ensures r == Partition(items)
  {
    var papers: seq<Entry> := [];
    var datasets: seq<Entry> := [];
    for i := 0 to |items|
      invariant Partition(items[..i]) == Ok(Lists(papers, datasets))
    {
      assert items[..i + 1][..i] == items[..i];
      assert Partition(items[..i + 1]) == Add(Ok(Lists(papers, datasets)), items[i]);
      var outcome := ProcessItem(items[i]);
      match outcome
      case Err(e) =>
        PartitionErrPropagates(items, i + 1);
        return Err(e);
      case Ok(Paper(entry)) =>
        papers := papers + [entry];
      case Ok(Dataset(entry)) =>
        datasets := datasets + [entry];
      case Ok(_) =>
    }
    assert items[..|items|] == items;
    r := Ok(Lists(papers, datasets));
  }
}
