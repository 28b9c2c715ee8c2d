/** The list-valued columns: Python's `", ".join(items)` and the split that
    recovers the items from the joined text. */
module Join {

  const Separator := ", "

  /** `", ".join(xs)`. */
  function Join(xs: seq<string>): (s: string)
    ensures |xs| == 0 ==> s == ""
    ensures |xs| == 1 ==> s == xs[0]
  {
    if |xs| == 0 then ""
    else if |xs| == 1 then xs[0]
    else xs[0] + Separator + Join(xs[1..])
  }

  /** The separator starts at position `i` of `s`. */
  predicate SeparatorAt(s: string, i: int) {
    0 <= i && i + 1 < |s| && s[i] == ',' && s[i + 1] == ' '
  }

  predicate ContainsSeparator(s: string) {
    exists i | 0 <= i < |s| :: SeparatorAt(s, i)
  }

  /** `s.split(", ")`: the pieces between the separators, scanned left to right. */
  function Split(s: string): (parts: seq<string>)
    ensures |parts| >= 1
    decreases |s|
  {
    if |s| < 2 then [s]
    else if SeparatorAt(s, 0) then [""] + Split(s[2..])
    else
      var rest := Split(s[1..]);
      [[s[0]] + rest[0]] + rest[1..]
  }

  /** A prefix in which no separator starts is glued onto the first piece. */
  lemma {:induction false} SplitAfterPlainPrefix(x: string, t: string)
    requires forall i :: 0 <= i < |x| ==> !SeparatorAt(x + t, i)
    ensures Split(x + t) == [x + Split(t)[0]] + Split(t)[1..]
    decreases |x|
  {
    var s := x + t;
    if |x| == 0 {
      assert s == t;
      assert x + Split(t)[0] == Split(t)[0];
      assert [Split(t)[0]] + Split(t)[1..] == Split(t);
    } else if |s| < 2 {
      assert t == "" && s == x;
    } else {
      assert !SeparatorAt(s, 0);
      assert s[1..] == x[1..] + t;
      forall i | 0 <= i < |x[1..]|
        ensures !SeparatorAt(x[1..] + t, i)
      {
        assert !SeparatorAt(s, i + 1);
      }
      SplitAfterPlainPrefix(x[1..], t);
      var rest := Split(s[1..]);
      assert rest[0] == x[1..] + Split(t)[0];
      assert rest[1..] == Split(t)[1..];
      assert [s[0]] + x[1..] == x;
      assert [s[0]] + rest[0] == x + Split(t)[0];
    }
  }

  /** Joining a non-empty list whose items do not contain the separator can
      be undone by splitting. An empty list is the exception: it joins to
      the same empty string as the list holding one empty string. */
  lemma {:induction false} SplitJoin(xs: seq<string>)
    requires |xs| >= 1
    requires forall i :: 0 <= i < |xs| ==> !ContainsSeparator(xs[i])
    ensures Split(Join(xs)) == xs
    decreases |xs|
  {
    var x := xs[0];
    if |xs| == 1 {
      forall i | 0 <= i < |x|
        ensures !SeparatorAt(x + "", i)
      {
        assert x + "" == x;
      }
      SplitAfterPlainPrefix(x, "");
      assert x + "" == x;
    } else {
      var t := Separator + Join(xs[1..]);
      forall i | 0 <= i < |x|
        ensures !SeparatorAt(x + t, i)
      {
        if i + 1 < |x| {
          assert !SeparatorAt(x, i);
        }
      }
      SplitAfterPlainPrefix(x, t);
      assert Join(xs) == x + t;
      assert SeparatorAt(t, 0) && t[2..] == Join(xs[1..]);
      SplitJoin(xs[1..]);
      assert Split(t) == [""] + xs[1..];
      assert x + "" == x;
      assert [x] + xs[1..] == xs;
    }
  }

  lemma JoinExamples()
    ensures Join(["ai", "devtools"]) == "ai, devtools"
    ensures Join([]) == "" && Join([""]) == ""
  {
  }
}
