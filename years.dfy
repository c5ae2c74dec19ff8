/** The date extractor: a best-effort publication year from a CSL-JSON `issued` value. */
module Years {
  import opened Values

  /** The year of an undated record. */
  const Undated: string := "N.D."

  /** A word character for `\b`, ASCII only. */
  predicate IsWordChar(c: char)
  {
    'a' <= c <= 'z' || 'A' <= c <= 'Z' || IsDigit(c) || c == '_'
  }

  /** The pattern `\b(19|20)\d{2}\b` matches the four characters of s at position i. */
  predicate YearAt(s: string, i: nat)
  {
    i + 4 <= |s|
    && ((s[i] == '1' && s[i + 1] == '9') || (s[i] == '2' && s[i + 1] == '0'))
    && IsDigit(s[i + 2]) && IsDigit(s[i + 3])
    && (i == 0 || !IsWordChar(s[i - 1]))
    && (i + 4 == |s| || !IsWordChar(s[i + 4]))
  }

  /** `re.search` for the year pattern, from position `from` on: the leftmost match. */
  function FindYear(s: string, from: nat): (r: Option<nat>)
    ensures r.Some? ==> from <= r.value && YearAt(s, r.value)
    ensures r.Some? ==> forall j :: from <= j < r.value ==> !YearAt(s, j)
    ensures r.None? ==> forall j :: from <= j ==> !YearAt(s, j)
    decreases |s| - from
  {
    if from + 4 > |s| then None
    else if YearAt(s, from) then Some(from)
    else FindYear(s, from + 1)
  }

  /** The outcome of one stage of the extractor: a year is returned, an exception is
      raised (and caught, giving "N.D."), or the next stage runs. */
  datatype Stage = Return(year: string) | Raise | Continue

  /** The structured stage: `str(issued['date-parts'][0][0])` when `date-parts` is present
      and truthy and its first entry is truthy. Indexing that Python refuses raises. */
  function DatePartsStage(m: map<string, Json>): (r: Stage)
    ensures r.Return? ==> FromDateParts(m, r.year)
    ensures r.Raise? <==> "date-parts" in m && Truthy(m["date-parts"])
                          && (Index0(m["date-parts"]).None?
                              || (Truthy(Index0(m["date-parts"]).value)
                                  && Index0(Index0(m["date-parts"]).value).None?))
    ensures r.Continue? <==> "date-parts" !in m || !Truthy(m["date-parts"])
                             || (Index0(m["date-parts"]).Some? && !Truthy(Index0(m["date-parts"]).value))
  {
    if "date-parts" in m && Truthy(m["date-parts"]) then
      match Index0(m["date-parts"])
      case None => Raise
      case Some(first) =>
        if !Truthy(first) then Continue
        else
          match Index0(first)
          case None => Raise
          case Some(x) => Return(PyStr(x))
    else
      Continue
  }

  /** A free-text stage: the first year in `str(issued[field])` when that key holds a
      non-null value. */
  function TextStage(m: map<string, Json>, field: string): (r: Stage)
    ensures !r.Raise?
    ensures r.Return? ==> FromText(m, field, r.year)
    ensures r.Continue? <==> field !in m || m[field] == JNull || forall i: nat :: !YearAt(PyStr(m[field]), i)
  {
    if field in m && m[field] != JNull then
      var s := PyStr(m[field]);
      match FindYear(s, 0)
      case Some(i) => Return(s[i..i + 4])
      case None => Continue
    else
      Continue
  }

  /** The value `date-parts[0][0]` that the structured stage renders. */
  predicate FromDateParts(m: map<string, Json>, year: string)
  {
    "date-parts" in m
    && Index0(m["date-parts"]).Some?
    && Index0(Index0(m["date-parts"]).value).Some?
    && year == PyStr(Index0(Index0(m["date-parts"]).value).value)
  }

  /** `year` is a match of the year pattern inside `str(m[field])`. */
  ghost predicate FromText(m: map<string, Json>, field: string, year: string)
  {
    field in m && m[field] != JNull
    && exists i: nat :: YearAt(PyStr(m[field]), i) && year == PyStr(m[field])[i..i + 4]
  }

  /** `get_year`. It never raises: every exception inside gives "N.D.". Only a dict can
      yield a year; on a string or a list the membership tests either fail or lead to
      indexing with a string key, which raises, and on an int or None they raise. */
  function GetYear(issued: Json): (year: string)
    ensures !issued.JMap? ==> year == Undated
    ensures issued.JMap? ==>
              year == Undated
              || FromDateParts(issued.fields, year)
              || FromText(issued.fields, "raw", year)
              || FromText(issued.fields, "literal", year)
    ensures issued.JMap? && DatePartsStage(issued.fields).Return? ==>
              year == DatePartsStage(issued.fields).year
  {
    if !issued.JMap? then Undated
    else
      var m := issued.fields;
      var structured := DatePartsStage(m);
      if structured.Return? then structured.year
      else if structured.Raise? then Undated
      else
        var raw := TextStage(m, "raw");
        if raw.Return? then raw.year
        else
          var literal := TextStage(m, "literal");
          if literal.Return? then literal.year else Undated
  }

  /** A well-formed `date-parts` decides the year: `date-parts[0][0]` rendered, whatever
      the free-text fields say. An integer year is rendered in decimal and reads back
      as the same number. */
  lemma YearFromDateParts(m: map<string, Json>, parts: seq<Json>, first: seq<Json>)
    requires "date-parts" in m && m["date-parts"] == JList(parts)
    requires parts != [] && parts[0] == JList(first) && first != []
    ensures GetYear(JMap(m)) == PyStr(first[0])
    ensures first[0].JInt? && first[0].i >= 0 ==>
              DecimalValue(GetYear(JMap(m))) == first[0].i
  {
    if first[0].JInt? && first[0].i >= 0 {
      DecimalRoundTrip(first[0].i);
    }
  }

  /** A malformed `date-parts` (one whose indexing raises) gives "N.D." at once: the
      free-text fields are not consulted. */
  lemma MalformedDatePartsUndated(m: map<string, Json>)
    requires "date-parts" in m && Truthy(m["date-parts"])
    requires Index0(m["date-parts"]).None?
             || (Truthy(Index0(m["date-parts"]).value)
                 && Index0(Index0(m["date-parts"]).value).None?)
    ensures GetYear(JMap(m)) == Undated
  {
  }

  /** Without a usable `date-parts`, the first year in `raw` wins, then the first year in
      `literal`, and otherwise the record is undated. */
  lemma YearFromText(m: map<string, Json>)
    requires "date-parts" !in m || !Truthy(m["date-parts"])
             || (Index0(m["date-parts"]).Some? && !Truthy(Index0(m["date-parts"]).value))
    ensures TextStage(m, "raw").Return? ==> GetYear(JMap(m)) == TextStage(m, "raw").year
    ensures !TextStage(m, "raw").Return? && TextStage(m, "literal").Return? ==>
              GetYear(JMap(m)) == TextStage(m, "literal").year
    ensures !TextStage(m, "raw").Return? && !TextStage(m, "literal").Return? ==>
              GetYear(JMap(m)) == Undated
  {
  }

  /** The year found in a free-text field is the leftmost match: four digits starting
      with 19 or 20, not glued to a word character on either side. */
  lemma {:induction false} TextYearIsLeftmostMatch(m: map<string, Json>, field: string)
    requires TextStage(m, field).Return?
    ensures var s := PyStr(m[field]);
            exists i: nat :: YearAt(s, i) && (forall j :: 0 <= j < i ==> !YearAt(s, j))
                        && TextStage(m, field).year == s[i..i + 4]
  {
    var s := PyStr(m[field]);
    var i := FindYear(s, 0).value;
    assert YearAt(s, i);
  }

  /** Examples: a structured date, an empty and a non-dict `issued`. */
  lemma StructuredExamples()
    ensures GetYear(JMap(map["date-parts" := JList([JList([JInt(1999), JInt(5)])])])) == "1999"
    ensures GetYear(JMap(map[])) == Undated
    ensures GetYear(JStr("2003")) == Undated
  {
    var m := map["date-parts" := JList([JList([JInt(1999), JInt(5)])])];
    YearFromDateParts(m, [JList([JInt(1999), JInt(5)])], [JInt(1999), JInt(5)]);
    assert NatToDecimal(1999) == "1999" by {
      assert NatToDecimal(1) == "1";
      assert NatToDecimal(19) == "19";
      assert NatToDecimal(199) == "199";
    }
  }

  /** Example: a `date-parts` whose first entry is a string is indexed as a string, so
      only its first character is rendered, and the free-text fields are not consulted. */
  lemma StringDatePartsExample()
    ensures GetYear(JMap(map["date-parts" := JList([JStr("2020")]), "raw" := JStr("2020")])) == "2"
  {
    var m := map["date-parts" := JList([JStr("2020")]), "raw" := JStr("2020")];
    assert Index0(m["date-parts"]) == Some(JStr("2020"));
    assert Index0(JStr("2020")) == Some(JStr("2"));
    assert DatePartsStage(m) == Return("2");
  }

  /** Example: a year inside free text, found by the leftmost match. */
  lemma TextExample()
    ensures GetYear(JMap(map["literal" := JStr("Spring 2003 release")])) == "2003"
  {
    var s := "Spring 2003 release";
    SearchExample();
    var m := map["literal" := JStr(s)];
    assert TextStage(m, "literal") == Return("2003");
    YearFromText(m);
  }

  /** The search skips "Spring" and matches the year standing on its own. */
  lemma SearchExample()
    ensures FindYear("Spring 2003 release", 0) == Some(7)
  {
    var s := "Spring 2003 release";
    assert s[0] == 'S' && s[1] == 'p' && s[2] == 'r' && s[3] == 'i' && s[4] == 'n' && s[5] == 'g';
    assert !YearAt(s, 0) && !YearAt(s, 1) && !YearAt(s, 2) && !YearAt(s, 3);
    assert !YearAt(s, 4) && !YearAt(s, 5) && !YearAt(s, 6);
    assert YearAt(s, 7);
  }
}
