/** The author formatter: a list of CSL-JSON name descriptors becomes one display string,
    "A", "A and B" or "A, B, and C". */
module Authors {
  import opened Values

  /** One name descriptor; only the three keys the formatter consults are kept. */
  datatype Author = Author(literal: Field<string>, family: Field<string>, given: Field<string>)

  /** The name one descriptor contributes, or the TypeError building it raises.
      An organisational `literal` wins whenever its key is present; otherwise `family`,
      with `given` and one space in front when the `given` key is present. The result ""
      stands for every falsy name (an empty string or None): such a name is not kept. */
  function NameOf(a: Author): (r: Result<string>)
    ensures r.Err? <==> a.literal.Absent? && !a.family.Absent? && !a.given.Absent?
                        && (a.family.Null? || a.given.Null?)
    ensures !a.literal.Absent? ==> r == Ok(if a.literal.Present? then a.literal.value else "")
    ensures a.literal.Absent? && a.family.Absent? ==> r == Ok("")
    ensures a.literal.Absent? && a.family.Present? && a.given.Present? ==>
              r == Ok(a.given.value + " " + a.family.value)
    ensures a.literal.Absent? && a.family.Present? && a.given.Absent? ==> r == Ok(a.family.value)
    ensures a.literal.Absent? && a.family.Null? && a.given.Absent? ==> r == Ok("")
    ensures r.Ok? && r.value != "" && a.literal.Absent? ==>
              a.family.Present? && |a.family.value| <= |r.value|
              && r.value[|r.value| - |a.family.value|..] == a.family.value
  {
    if !a.literal.Absent? then
      Ok(if a.literal.Present? then a.literal.value else "")
    else if !a.family.Absent? then
      if a.given.Absent? then
        Ok(if a.family.Present? then a.family.value else "")
      else if a.given.Present? && a.family.Present? then
        Ok(a.given.value + " " + a.family.value)
      else
        Err(TypeError)
    else
      Ok("")
  }

  /** One turn of the loop: the name of descriptor `a` is kept when it is not empty. */
  function Step(sofar: Result<seq<string>>, a: Author): Result<seq<string>>
  {
    if sofar.Err? then sofar
    else
      match NameOf(a)
      case Err(e) => Err(e)
      case Ok(n) => Ok(if n == "" then sofar.value else sofar.value + [n])
  }

  /** The names the loop collects, in descriptor order, or the first exception it meets. */
  function Names(authors: seq<Author>): (r: Result<seq<string>>)
    ensures r.Ok? ==> |r.value| <= |authors|
    ensures r.Ok? ==> forall k :: 0 <= k < |r.value| ==> r.value[k] != ""
  {
    if authors == [] then Ok([])
    else Step(Names(authors[..|authors| - 1]), authors[|authors| - 1])
  }

  /** Results of two consecutive runs of the loop, the first one's exception winning. */
  function ConcatNames(a: Result<seq<string>>, b: Result<seq<string>>): Result<seq<string>>
  {
    if a.Err? then a else if b.Err? then b else Ok(a.value + b.value)
  }

  /** Each descriptor contributes on its own and in place: the names of a concatenation
      are the names of its parts, in order. */
  lemma {:induction false} NamesConcat(xs: seq<Author>, ys: seq<Author>)
    ensures Names(xs + ys) == ConcatNames(Names(xs), Names(ys))
    decreases |ys|
  {
    if ys == [] {
      assert xs + ys == xs;
      assert Names(ys) == Ok([]);
      if Names(xs).Ok? {
        assert Names(xs).value + [] == Names(xs).value;
      }
    } else {
      var zs, init, last := xs + ys, ys[..|ys| - 1], ys[|ys| - 1];
      assert zs[..|zs| - 1] == xs + init;
      assert zs[|zs| - 1] == last;
      NamesConcat(xs, init);
      StepConcat(Names(xs), Names(init), last);
    }
  }

  lemma StepConcat(p: Result<seq<string>>, q: Result<seq<string>>, a: Author)
    ensures Step(ConcatNames(p, q), a) == ConcatNames(p, Step(q, a))
  {
    if p.Ok? && q.Ok? && NameOf(a).Ok? && NameOf(a).value != "" {
      assert p.value + (q.value + [NameOf(a).value]) == (p.value + q.value) + [NameOf(a).value];
    }
  }

  /** The names of a single descriptor. */
  lemma NamesSingle(a: Author)
    ensures NameOf(a).Err? ==> Names([a]) == Err(NameOf(a).error)
    ensures NameOf(a) == Ok("") ==> Names([a]) == Ok([])
    ensures NameOf(a).Ok? && NameOf(a).value != "" ==> Names([a]) == Ok([NameOf(a).value])
  {
    assert [a][..0] == [];
    assert Names([a]) == Step(Names([]), a);
    if NameOf(a).Ok? {
      assert [] + [NameOf(a).value] == [NameOf(a).value];
    }
  }

  /** Once a prefix of the descriptors raises, the whole list raises the same exception. */
  lemma {:induction false} NamesErrPropagates(authors: seq<Author>, j: nat)
    requires j <= |authors| && Names(authors[..j]).Err?
    ensures Names(authors) == Names(authors[..j])
    decreases |authors| - j
  {
    if j < |authors| {
      var init := authors[..|authors| - 1];
      assert init[..j] == authors[..j];
      NamesErrPropagates(init, j);
    } else {
      assert authors[..j] == authors;
    }
  }

  /** One turn raises when the turns before it did or the descriptor itself raises. */
  lemma StepErr(sofar: Result<seq<string>>, a: Author)
    ensures Step(sofar, a).Err? <==> sofar.Err? || NameOf(a).Err?
  {
  }

  /** The loop raises exactly when some descriptor raises. */
  lemma {:induction false} NamesErrIff(authors: seq<Author>)
    ensures Names(authors).Err? <==> exists k :: 0 <= k < |authors| && NameOf(authors[k]).Err?
  {
    if authors != [] {
      var init, last := authors[..|authors| - 1], authors[|authors| - 1];
      NamesErrIff(init);
      assert Names(authors) == Step(Names(init), last);
      StepErr(Names(init), last);
      assert forall k :: 0 <= k < |init| ==> init[k] == authors[k];
    }
  }

  /** No name is collected exactly when every descriptor yields an empty name. */
  lemma {:induction false} NamesNoneIff(authors: seq<Author>)
    ensures Names(authors) == Ok([]) <==> forall k :: 0 <= k < |authors| ==> NameOf(authors[k]) == Ok("")
  {
    if authors != [] {
      var init := authors[..|authors| - 1];
      NamesNoneIff(init);
      if Names(authors) == Ok([]) {
        assert Names(init) == Ok([]);
        forall k | 0 <= k < |authors| ensures NameOf(authors[k]) == Ok("") {
          if k < |init| {
            assert NameOf(init[k]) == Ok("");
          }
        }
      }
      if forall k :: 0 <= k < |authors| ==> NameOf(authors[k]) == Ok("") {
        assert forall k :: 0 <= k < |init| ==> NameOf(init[k]) == Ok("") by {
          forall k | 0 <= k < |init| ensures NameOf(init[k]) == Ok("") {
            assert init[k] == authors[k];
          }
        }
      }
    }
  }

  /** `sep.join(xs)`. */
  function JoinWith(sep: string, xs: seq<string>): string
  {
    if xs == [] then ""
    else if |xs| == 1 then xs[0]
    else xs[0] + sep + JoinWith(sep, xs[1..])
  }

  /** The display string for the collected names: none, one, "A and B", or all but the
      last joined by ", ", then ", and ", then the last (the Oxford comma). It agrees with
      the name-by-name description: every name but the last is followed by " and " when
      there are two, by ", and " when it is the last but one of three or more, and by ", "
      otherwise. */
  function Join(names: seq<string>): (r: string)
    ensures r == Spelled(names, 0)
  {
    var n := |names|;
    if n == 0 then ""
    else if n == 1 then
      assert Spelled(names, 1) == "";
      names[0]
    else if n == 2 then
      assert Spelled(names, 2) == "";
      assert Spelled(names, 1) == names[1];
      names[0] + " and " + names[1]
    else
      JoinTailSpelled(names, 0);
      assert names[0..n - 1] == names[..n - 1];
      JoinWith(", ", names[..n - 1]) + ", and " + names[n - 1]
  }

  /** What follows the k-th of n names in the display string. */
  function Separator(k: nat, n: nat): string
  {
    if k + 1 >= n then ""
    else if n == 2 then " and "
    else if k + 2 == n then ", and "
    else ", "
  }

  /** Names k, k+1, ... each followed by its separator: an independent description
      of the display string, one name at a time. */
  function Spelled(names: seq<string>, k: nat): string
    decreases |names| - k
  {
    if k >= |names| then "" else names[k] + Separator(k, |names|) + Spelled(names, k + 1)
  }

  lemma {:induction false} JoinTailSpelled(names: seq<string>, k: nat)
    requires |names| > 2 && k + 2 <= |names|
    ensures JoinWith(", ", names[k..|names| - 1]) + ", and " + names[|names| - 1] == Spelled(names, k)
    decreases |names| - k
  {
    var n := |names|;
    var last := names[n - 1];
    assert Spelled(names, n - 1) == last by {
      assert Spelled(names, n) == "";
      assert Separator(n - 1, n) == "";
    }
    if k + 2 == n {
      assert names[k..n - 1] == [names[k]];
      assert JoinWith(", ", names[k..n - 1]) == names[k];
      assert Separator(k, n) == ", and ";
    } else {
      var tail := names[k + 1..n - 1];
      assert names[k..n - 1] == [names[k]] + tail;
      assert JoinWith(", ", names[k..n - 1]) == names[k] + ", " + JoinWith(", ", tail);
      JoinTailSpelled(names, k + 1);
      assert Separator(k, n) == ", ";
      assert Spelled(names, k) == names[k] + ", " + Spelled(names, k + 1);
    }
  }

  lemma SpelledLength(names: seq<string>, k: nat)
    requires k < |names|
    ensures |Spelled(names, k)| >= |names[k]|
  {
  }

  /** With no empty name among them, the display string is empty exactly when there are
      no names: this is what lets the caller test "no authors" on the string. */
  lemma JoinEmptyIff(names: seq<string>)
    requires forall k :: 0 <= k < |names| ==> names[k] != ""
    ensures Join(names) == "" <==> names == []
  {
    if names != [] {
      SpelledLength(names, 0);
    }
  }

  /** `format_authors` as a value: the joined names, or the exception of the loop. */
  function FormattedAuthors(authors: seq<Author>): Result<string>
  {
    match Names(authors)
    case Err(e) => Err(e)
    case Ok(names) => Ok(Join(names))
  }

  /** The formatter raises exactly when some descriptor raises, and gives "" exactly
      when every descriptor yields an empty name. */
  lemma FormattedAuthorsCases(authors: seq<Author>)
    ensures FormattedAuthors(authors).Err? <==> exists k :: 0 <= k < |authors| && NameOf(authors[k]).Err?
    ensures FormattedAuthors(authors) == Ok("") <==>
              forall k :: 0 <= k < |authors| ==> NameOf(authors[k]) == Ok("")
  {
    NamesErrIff(authors);
    NamesNoneIff(authors);
    if Names(authors).Ok? {
      JoinEmptyIff(Names(authors).value);
    }
  }

  /** `format_authors`: collects the non-empty names in a loop, then joins them. */
  method FormatAuthors(authors: seq<Author>) returns (r: Result<string>)
    ensures r == FormattedAuthors(authors)
  {
    var formatted: seq<string> := [];
    for i := 0 to |authors|
      invariant Names(authors[..i]) == Ok(formatted)
    {
      assert authors[..i + 1][..i] == authors[..i];
      var name := NameOf(authors[i]);
      if name.Err? {
        NamesErrPropagates(authors, i + 1);
        return Err(name.error);
      }
      if name.value != "" {
        formatted := formatted + [name.value];
      }
    }
    assert authors[..|authors|] == authors;
    r := Ok(Join(formatted));
  }
}
