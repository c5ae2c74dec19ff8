/** Merge and serialise: the new document from the preserved stats and the two sorted
    lists, and what a rerun over the document it wrote gives. */
module Pipeline {
  import opened Values
  import opened Authors
  import opened Items
  import opened Ordering
  import Stats
  import Years

  /** The document written on each run; the prior document's lists are never read. */
  datatype Document = Document(stats: Json, papers: seq<Entry>, datasets: seq<Entry>)

  /** One run over the fetched items: the document, or the exception that ends the run
      before anything is written. */
  function Generate(items: seq<RawItem>, prior: Option<Json>, scholarId: string): (r: Result<Document>)
    ensures r.Err? <==> exists k :: 0 <= k < |items| && Classify(items[k]).Err?
    ensures r.Ok? <==> Partition(items).Ok?
    ensures r.Ok? ==> r.value.stats == Stats.SelectStats(prior, scholarId)
    ensures r.Ok? ==>
              multiset(r.value.papers) == multiset(Partition(items).value.papers)
              && multiset(r.value.datasets) == multiset(Partition(items).value.datasets)
    ensures r.Ok? ==> Descending(r.value.papers) && Descending(r.value.datasets)
    ensures r.Ok? ==> forall y :: WithYear(r.value.papers, y) == WithYear(Partition(items).value.papers, y)
                                 && WithYear(r.value.datasets, y) == WithYear(Partition(items).value.datasets, y)
  {
    PartitionErrIff(items);
    match Partition(items)
    case Err(e) => Err(e)
    case Ok(lists) =>
      SortDescending(lists.papers);
      SortDescending(lists.datasets);
      assert forall y :: WithYear(SortByYear(lists.papers), y) == WithYear(lists.papers, y)
                         && WithYear(SortByYear(lists.datasets), y) == WithYear(lists.datasets, y) by {
        forall y ensures WithYear(SortByYear(lists.papers), y) == WithYear(lists.papers, y)
                         && WithYear(SortByYear(lists.datasets), y) == WithYear(lists.datasets, y) {
          SortStable(lists.papers, y);
          SortStable(lists.datasets, y);
        }
      }
      Ok(Document(Stats.SelectStats(prior, scholarId), SortByYear(lists.papers), SortByYear(lists.datasets)))
  }

  /** The body of `main` after the fetch: process the items, then sort each list. */
  method Run(items: seq<RawItem>, prior: Option<Json>, scholarId: string) returns (r: Result<Document>)
    ensures r == Generate(items, prior, scholarId)
  {
    var stats := Stats.SelectStats(prior, scholarId);
    var lists := ProcessItems(items);
    if lists.Err? {
      return Err(lists.error);
    }
    r := Ok(Document(stats, SortByYear(lists.value.papers), SortByYear(lists.value.datasets)));
  }

  /** Every entry of the written lists has a real title, authors and a year, which is
      its sort key (the '0' fallback is never used); papers carry no `venue` and
      datasets no `journal`. */
  lemma ListedEntries(items: seq<RawItem>, prior: Option<Json>, scholarId: string)
    requires Generate(items, prior, scholarId).Ok?
    ensures var d := Generate(items, prior, scholarId).value;
            (forall e :: e in d.papers ==> WellFormed(e) && YearKey(e) == e["year"] && "venue" !in e)
            && (forall e :: e in d.datasets ==> WellFormed(e) && YearKey(e) == e["year"] && "journal" !in e)
  {
    var d := Generate(items, prior, scholarId).value;
    var l := Partition(items).value;
    ListedWellFormed(items);
    forall e | e in d.papers ensures e in l.papers {
      assert e in multiset(d.papers);
    }
    forall e | e in d.datasets ensures e in l.datasets {
      assert e in multiset(d.datasets);
    }
  }

  /** The document as the TOML writer receives it. */
  function EntryToJson(e: Entry): Json
  {
    JMap(map k | k in e :: JStr(e[k]))
  }

  function DocumentToJson(d: Document): Json
  {
    JMap(map[
      "stats" := d.stats,
      "papers" := JList(seq(|d.papers|, i requires 0 <= i < |d.papers| => EntryToJson(d.papers[i]))),
      "datasets" := JList(seq(|d.datasets|, i requires 0 <= i < |d.datasets| => EntryToJson(d.datasets[i])))])
  }

  /** A rerun keeps the stats of the document it finds, whatever the items now are, and
      rebuilds the lists from the items alone. */
  lemma RerunKeepsStats(d: Document, items: seq<RawItem>, scholarId: string)
    requires Generate(items, Some(DocumentToJson(d)), scholarId).Ok?
    ensures Generate(items, Some(DocumentToJson(d)), scholarId).value.stats == d.stats
    ensures Generate(items, Some(DocumentToJson(d)), scholarId).value.papers
            == Generate(items, None, scholarId).value.papers
    ensures Generate(items, Some(DocumentToJson(d)), scholarId).value.datasets
            == Generate(items, None, scholarId).value.datasets
  {
  }

  /** Regeneration is idempotent: rerunning over the same items with the document a run
      wrote (read back unchanged) writes the same document again. */
  lemma Idempotent(items: seq<RawItem>, prior: Option<Json>, scholarId: string)
    requires Generate(items, prior, scholarId).Ok?
    ensures var d := Generate(items, prior, scholarId).value;
            Generate(items, Some(DocumentToJson(d)), scholarId) == Ok(d)
  {
    var d := Generate(items, prior, scholarId).value;
    assert Stats.HasStats(Some(DocumentToJson(d)));
  }

  /** The items of the end-to-end example: a journal article "X" by one author dated
      2021 and a dataset "Y" by two organisational authors dated 2019. */
  function ArticleX(): RawItem
  {
    RawItem(Present("article-journal"), Present("X"),
            Present([Author(Absent, Present("Lovelace"), Present("Ada"))]),
            Some(JMap(map["date-parts" := JList([JList([JInt(2021)])])])),
            Absent, Absent, Absent, Absent, Absent)
  }

  function DatasetY(): RawItem
  {
    RawItem(Present("dataset"), Present("Y"),
            Present([Author(Present("A"), Absent, Absent), Author(Present("B"), Absent, Absent)]),
            Some(JMap(map["date-parts" := JList([JList([JInt(2019)])])])),
            Absent, Absent, Absent, Absent, Absent)
  }

  lemma ExampleTypes()
    ensures EntryType(ArticleX()) == Ok("article-journal")
    ensures EntryType(DatasetY()) == Ok(DatasetType)
  {
    assert Lower("article-journal") == "article-journal";
    assert Lower("dataset") == "dataset";
  }

  lemma ExampleYears()
    ensures Years.GetYear(Issued(ArticleX())) == "2021"
    ensures Years.GetYear(Issued(DatasetY())) == "2019"
  {
    assert NatToDecimal(2021) == "2021" by {
      assert NatToDecimal(2) == "2" && NatToDecimal(20) == "20" && NatToDecimal(202) == "202";
    }
    assert NatToDecimal(2019) == "2019" by {
      assert NatToDecimal(2) == "2" && NatToDecimal(20) == "20" && NatToDecimal(201) == "201";
    }
  }

  lemma ExampleArticleAuthors()
    ensures FormattedAuthors(AuthorList(ArticleX()).value) == Ok("Ada Lovelace")
  {
    var ada := Author(Absent, Present("Lovelace"), Present("Ada"));
    assert "Ada" + " " + "Lovelace" == "Ada Lovelace";
    assert NameOf(ada) == Ok("Ada Lovelace");
    NamesSingle(ada);
  }

  lemma ExampleDatasetAuthors()
    ensures FormattedAuthors(AuthorList(DatasetY()).value) == Ok("A and B")
  {
    var a, b := Author(Present("A"), Absent, Absent), Author(Present("B"), Absent, Absent);
    NamesSingle(a);
    NamesSingle(b);
    NamesConcat([a], [b]);
    assert [a] + [b] == [a, b];
    assert ["A"] + ["B"] == ["A", "B"];
    assert Names([a, b]) == Ok(["A", "B"]);
    assert "A" + " and " + "B" == "A and B";
  }

  lemma ExampleFields()
    ensures EntryType(ArticleX()) == Ok("article-journal")
    ensures EntryType(DatasetY()) == Ok(DatasetType)
    ensures Years.GetYear(Issued(ArticleX())) == "2021"
    ensures Years.GetYear(Issued(DatasetY())) == "2019"
    ensures FormattedAuthors(AuthorList(ArticleX()).value) == Ok("Ada Lovelace")
    ensures FormattedAuthors(AuthorList(DatasetY()).value) == Ok("A and B")
  {
    ExampleTypes();
    ExampleYears();
    ExampleArticleAuthors();
    ExampleDatasetAuthors();
  }

  /** DropNone on a draft without link and DOI keeps the four other keys. */
  lemma DropUnlinked(title: string, authors: string, year: string, key: string, value: string)
    requires key !in {"title", "authors", "year", "link", "doi"}
    ensures DropNone(map["title" := Some(title), "authors" := Some(authors), "year" := Some(year),
                         "link" := None, "doi" := None][key := Some(value)])
            == map["title" := title, "authors" := authors, "year" := year, key := value]
  {
    var d := map["title" := Some(title), "authors" := Some(authors), "year" := Some(year),
                 "link" := None, "doi" := None][key := Some(value)];
    var e := DropNone(d);
    var want := map["title" := title, "authors" := authors, "year" := year, key := value];
    assert e.Keys == want.Keys;
    forall k | k in e ensures e[k] == want[k] {
      assert d[k] == Some(e[k]);
    }
  }

  lemma ExampleArticleDraft()
    ensures DropNone(MakeDraft(ArticleX(), "Ada Lovelace")["journal" := Journal(ArticleX())])
            == map["title" := "X", "authors" := "Ada Lovelace", "year" := "2021",
                   "journal" := UnknownJournal]
  {
    ExampleFields();
    var x := ArticleX();
    assert MakeDraft(x, "Ada Lovelace")
           == map["title" := Some("X"), "authors" := Some("Ada Lovelace"), "year" := Some("2021"),
                  "link" := None, "doi" := None];
    DropUnlinked("X", "Ada Lovelace", "2021", "journal", UnknownJournal);
  }

  lemma ExampleArticleClassified()
    ensures Classify(ArticleX())
            == Ok(Paper(map["title" := "X", "authors" := "Ada Lovelace", "year" := "2021",
                            "journal" := UnknownJournal]))
  {
    ExampleFields();
    ExampleArticleDraft();
    var x := ArticleX();
    assert AuthorList(x) == Ok([Author(Absent, Present("Lovelace"), Present("Ada"))]);
    assert !Rejects(MakeDraft(x, "Ada Lovelace")["title"], "Ada Lovelace");
    assert "article-journal" in PaperTypes;
  }

  lemma ExampleDatasetDraft()
    ensures DropNone(MakeDraft(DatasetY(), "A and B")["venue" := Venue(DatasetY())])
            == map["title" := "Y", "authors" := "A and B", "year" := "2019",
                   "venue" := UnknownRepository]
  {
    ExampleFields();
    var y := DatasetY();
    assert MakeDraft(y, "A and B")
           == map["title" := Some("Y"), "authors" := Some("A and B"), "year" := Some("2019"),
                  "link" := None, "doi" := None];
    DropUnlinked("Y", "A and B", "2019", "venue", UnknownRepository);
  }

  lemma ExampleDatasetClassified()
    ensures Classify(DatasetY())
            == Ok(Dataset(map["title" := "Y", "authors" := "A and B", "year" := "2019",
                              "venue" := UnknownRepository]))
  {
    ExampleFields();
    ExampleDatasetDraft();
    var y := DatasetY();
    assert AuthorList(y) == Ok([Author(Present("A"), Absent, Absent), Author(Present("B"), Absent, Absent)]);
    ExampleDatasetAuthors();
    ClassifyStep(y, DatasetType, "A and B");
    assert !Rejects(MakeDraft(y, "A and B")["title"], "A and B");
    assert DatasetType !in PaperTypes;
  }

  lemma ExamplePartition()
    ensures Partition([ArticleX(), DatasetY()]) == Ok(Lists(
              [map["title" := "X", "authors" := "Ada Lovelace", "year" := "2021", "journal" := UnknownJournal]],
              [map["title" := "Y", "authors" := "A and B", "year" := "2019", "venue" := UnknownRepository]]))
  {
    ExampleArticleClassified();
    ExampleDatasetClassified();
    var items := [ArticleX(), DatasetY()];
    assert items[..1] == [ArticleX()] && [ArticleX()][..0] == [];
    var px := map["title" := "X", "authors" := "Ada Lovelace", "year" := "2021", "journal" := UnknownJournal];
    var dy := map["title" := "Y", "authors" := "A and B", "year" := "2019", "venue" := UnknownRepository];
    assert [] + [px] == [px] && [] + [dy] == [dy];
    var p1 := Add(Ok(Lists([], [])), ArticleX());
    assert p1 == Ok(Lists([px], []));
    assert Partition([ArticleX()]) == p1;
    var p2 := Add(p1, DatasetY());
    assert p2 == Ok(Lists([px], [dy]));
    assert Partition(items) == p2;
  }

  /** The end-to-end example: one paper and one dataset, each with the fallback venue,
      under the default stats. */
  lemma EndToEndExample(scholarId: string)
    ensures Generate([ArticleX(), DatasetY()], None, scholarId) == Ok(Document(
              Stats.DefaultStats(scholarId),
              [map["title" := "X", "authors" := "Ada Lovelace", "year" := "2021", "journal" := UnknownJournal]],
              [map["title" := "Y", "authors" := "A and B", "year" := "2019", "venue" := UnknownRepository]]))
  {
    ExamplePartition();
    var l := Partition([ArticleX(), DatasetY()]).value;
    assert SortByYear(l.papers) == l.papers && SortByYear(l.datasets) == l.datasets;
  }
}
