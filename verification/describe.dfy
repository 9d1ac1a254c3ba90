/** `MoveCommand.getDescription`: the label of a move, and reading the offsets back
    out of it. */
module Describe {
  import opened JavaLang
  import opened Store

  /** `getClass().getSimpleName()` of a shape. */
  function ClassName(objs: Objs, id: Id): (r: string)
    requires id in objs
    ensures r == "Rectangle" <==> objs[id].kind.Rect?
    ensures r == "RegularPolygon" <==> objs[id].kind.Poly?
    ensures r == "ShapeGroup" <==> objs[id].kind.Group?
  {
    match objs[id].kind
    case Rect(_, _, _) => "Rectangle"
    case Poly(_, _, _) => "RegularPolygon"
    case Group(_) => "ShapeGroup"
  }

  /** "Move shapes" for no shapes; otherwise "Move " and the class name of the single
      shape or the count of shapes, then " by (dx, dy)". */
  function MoveDescription(objs: Objs, ts: seq<Id>, dx: int, dy: int): (r: string)
    requires |ts| == 1 ==> ts[0] in objs
    ensures ts == [] <==> r == "Move shapes"
    ensures |r| >= 11 && r[..5] == "Move "
  {
    if ts == [] then "Move shapes"
    else
      var what := if |ts| == 1 then ClassName(objs, ts[0]) else IntString(|ts|) + " shapes";
      "Move " + what + " by (" + IntString(dx) + ", " + IntString(dy) + ")"
  }

  /** The characters after the last `c` of `s`, or all of `s` when it has no `c`. */
  function AfterLast(s: string, c: char): (r: string)
    ensures c !in r
    ensures |r| <= |s| && r == s[|s| - |r|..]
  {
    if s == [] then []
    else if s[|s| - 1] == c then []
    else AfterLast(s[..|s| - 1], c) + [s[|s| - 1]]
  }

  /** The index of the first `c` in `s`. */
  function IndexOf(s: string, c: char): (r: Option<nat>)
    ensures r.None? <==> c !in s
    ensures r.Some? ==> r.value < |s| && s[r.value] == c && c !in s[..r.value]
  {
    if s == [] then None
    else if s[0] == c then Some(0)
    else
      var k := IndexOf(s[1..], c);
      if k.None? then None
      else
        assert s[..k.value + 1] == [s[0]] + s[1..][..k.value];
        Some(k.value + 1)
  }

  /** Reads "(dx, dy)" off the end of a move description. */
  function ParseOffsets(desc: string): Option<(int, int)>
  {
    var inner := AfterLast(desc, '(');
    if inner == [] || inner[|inner| - 1] != ')' then None else ParsePair(inner[..|inner| - 1])
  }

  /** Reads "dx, dy". */
  function ParsePair(body: string): Option<(int, int)>
  {
    match IndexOf(body, ',')
    case None => None
    case Some(k) =>
      if k + 1 < |body| && body[k + 1] == ' ' then
        var x, y := ParseInt(body[..k]), ParseInt(body[k + 2..]);
        if x.Some? && y.Some? then Some((x.value, y.value)) else None
      else None
  }

  lemma {:induction false} AfterLastAppend(p: string, t: string, c: char)
    requires p != [] && p[|p| - 1] == c && c !in t
    ensures AfterLast(p + t, c) == t
    decreases |t|
  {
    if t == [] {
      assert p + t == p;
    } else {
      var t', last := t[..|t| - 1], t[|t| - 1];
      assert t == t' + [last];
      assert p + t == (p + t') + [last];
      assert c !in t' by { assert forall x | x in t' :: x in t; }
      AfterLastAppend(p, t', c);
      AfterLastSnoc(p + t', last, c);
    }
  }

  lemma AfterLastSnoc(s: string, last: char, c: char)
    requires last != c
    ensures AfterLast(s + [last], c) == AfterLast(s, c) + [last]
  {
    var u := s + [last];
    assert u[|u| - 1] == last && u[..|u| - 1] == s;
  }

  lemma {:induction false} AfterLastNone(s: string, c: char)
    requires c !in s
    ensures AfterLast(s, c) == s
  {
    if s != [] {
      assert c !in s[..|s| - 1] by { assert forall x | x in s[..|s| - 1] :: x in s; }
      AfterLastNone(s[..|s| - 1], c);
      assert s == s[..|s| - 1] + [s[|s| - 1]];
    }
  }

  lemma {:induction false} IndexOfAppend(a: string, t: string, c: char)
    requires c !in a && t != [] && t[0] == c
    ensures IndexOf(a + t, c) == Some(|a|)
  {
    if a != [] {
      assert (a + t)[0] == a[0];
      assert (a + t)[1..] == a[1..] + t;
      assert c !in a[1..] by { assert forall x | x in a[1..] :: x in a; }
      IndexOfAppend(a[1..], t, c);
    }
  }

  lemma {:induction false} NoSignsInNumber(n: int)
    ensures '(' !in IntString(n) && ',' !in IntString(n) && ' ' !in IntString(n)
  {
    var s := NatString(if n < 0 then -n else n);
    assert AllDigits(s);
    assert IntString(n) == if n < 0 then "-" + s else s;
  }

  /** Reading the offsets back from any text that ends in "(a, b)". */
  lemma ParseOffsetsEnd(prefix: string, a: string, b: string, x: int, y: int)
    requires prefix != [] && prefix[|prefix| - 1] == '('
    requires '(' !in a && '(' !in b && ',' !in a
    requires ParseInt(a) == Some(x) && ParseInt(b) == Some(y)
    ensures ParseOffsets(prefix + (a + ", " + b + ")")) == Some((x, y))
  {
    var body := a + ", " + b;
    var t := body + ")";
    assert '(' !in t;
    AfterLastAppend(prefix, t, '(');
    ParseOffsetsOf(prefix + t, body);
    ParsePairOf(a, b, x, y);
  }

  lemma ParseOffsetsOf(desc: string, body: string)
    requires AfterLast(desc, '(') == body + ")"
    ensures ParseOffsets(desc) == ParsePair(body)
  {
    var inner := body + ")";
    assert inner[..|inner| - 1] == body;
  }

  lemma ParsePairOf(a: string, b: string, x: int, y: int)
    requires ',' !in a && ParseInt(a) == Some(x) && ParseInt(b) == Some(y)
    ensures ParsePair(a + ", " + b) == Some((x, y))
  {
    var body := a + ", " + b;
    assert body == a + (", " + b);
    IndexOfAppend(a, ", " + b, ',');
    assert body[..|a|] == a && body[|a| + 1] == ' ' && body[|a| + 2..] == b;
  }

  /** The offsets of a move over at least one shape can be read back from its
      description, so two moves of one list with different offsets are labelled
      differently; an empty move's label carries no offsets at all. */
  lemma DescriptionRecordsOffsets(objs: Objs, ts: seq<Id>, dx: int, dy: int)
    requires |ts| == 1 ==> ts[0] in objs
    ensures ts != [] ==> ParseOffsets(MoveDescription(objs, ts, dx, dy)) == Some((dx, dy))
    ensures ts == [] ==> ParseOffsets(MoveDescription(objs, ts, dx, dy)) == None
  {
    if ts == [] {
      NoOffsetsWhenEmpty();
    } else {
      var what := if |ts| == 1 then ClassName(objs, ts[0]) else IntString(|ts|) + " shapes";
      OffsetsAfter("Move " + what + " by (", dx, dy);
    }
  }

  /** Reads the subject of a move description: the text between "Move " and the
      " by " that precedes the first '('. */
  function ParseSubject(desc: string): Option<string>
  {
    match IndexOf(desc, '(')
    case None => None
    case Some(k) =>
      if 9 <= k && desc[..5] == "Move " && desc[k - 4..k] == " by " then Some(desc[5..k - 4])
      else None
  }

  /** Reads the count out of a subject of the form "n shapes". */
  function ParseCount(subject: string): Option<int>
  {
    if |subject| >= 7 && subject[|subject| - 7..] == " shapes" then ParseInt(subject[..|subject| - 7])
    else None
  }

  /** The subject of a move's description names what moved: the class name of a
      single shape, or "n shapes" whose count reads back as the number of shapes; an
      empty move's label has no subject. */
  lemma DescriptionNamesSubject(objs: Objs, ts: seq<Id>, dx: int, dy: int)
    requires |ts| == 1 ==> ts[0] in objs
    ensures ts == [] ==> ParseSubject(MoveDescription(objs, ts, dx, dy)) == None
    ensures |ts| == 1 ==> ParseSubject(MoveDescription(objs, ts, dx, dy)) == Some(ClassName(objs, ts[0]))
    ensures |ts| > 1 ==>
      && ParseSubject(MoveDescription(objs, ts, dx, dy)).Some?
      && ParseCount(ParseSubject(MoveDescription(objs, ts, dx, dy)).value) == Some(|ts|)
  {
    if ts == [] {
      NoSubjectWhenEmpty();
    } else {
      var what := if |ts| == 1 then ClassName(objs, ts[0]) else IntString(|ts|) + " shapes";
      var t := "(" + IntString(dx) + ", " + IntString(dy) + ")";
      SubjectHasNoParen(objs, ts);
      DescriptionSplits(what, dx, dy);
      SubjectOf(what, t);
      if |ts| > 1 {
        CountOf(|ts|);
      }
    }
  }

  lemma NoSubjectWhenEmpty()
    ensures ParseSubject("Move shapes") == None
  {
    var m := "Move shapes";
    assert forall i | 0 <= i < |m| :: m[i] != '(';
  }

  lemma DescriptionSplits(what: string, dx: int, dy: int)
    ensures "Move " + what + " by (" + IntString(dx) + ", " + IntString(dy) + ")"
      == "Move " + what + " by " + ("(" + IntString(dx) + ", " + IntString(dy) + ")")
  {
  }

  /** Reading the subject back from "Move <what> by (...". */
  lemma SubjectOf(what: string, t: string)
    requires '(' !in what && t != [] && t[0] == '('
    ensures ParseSubject("Move " + what + " by " + t) == Some(what)
  {
    var a := "Move " + what + " by ";
    var desc := a + t;
    assert '(' !in a by {
      assert forall i | 0 <= i < |a| :: a[i] == (if i < 5 then "Move "[i] else if i < 5 + |what| then what[i - 5] else " by "[i - 5 - |what|]);
    }
    IndexOfAppend(a, t, '(');
    var k := |a|;
    assert a[..5] == "Move " && a[k - 4..] == " by " && a[5..k - 4] == what;
    assert desc[..5] == a[..5] && desc[k - 4..k] == a[k - 4..] && desc[5..k - 4] == a[5..k - 4];
  }

  /** Reading the count back from "n shapes". */
  lemma CountOf(n: int)
    ensures ParseCount(IntString(n) + " shapes") == Some(n)
  {
    var w := IntString(n) + " shapes";
    assert w[|w| - 7..] == " shapes" && w[..|w| - 7] == IntString(n);
    IntStringRoundTrip(n);
  }

  lemma SubjectHasNoParen(objs: Objs, ts: seq<Id>)
    requires ts != [] && (|ts| == 1 ==> ts[0] in objs)
    ensures '(' !in (if |ts| == 1 then ClassName(objs, ts[0]) else IntString(|ts|) + " shapes")
  {
    if |ts| == 1 {
      var c := ClassName(objs, ts[0]);
      assert forall i | 0 <= i < |c| :: c[i] != '(';
    } else {
      NoSignsInNumber(|ts|);
      assert '(' !in " shapes";
    }
  }

  lemma NoOffsetsWhenEmpty()
    ensures ParseOffsets("Move shapes") == None
  {
    var m := "Move shapes";
    assert forall i | 0 <= i < |m| :: m[i] != '(';
    AfterLastNone(m, '(');
  }

  lemma OffsetsAfter(prefix: string, dx: int, dy: int)
    requires prefix != [] && prefix[|prefix| - 1] == '('
    ensures ParseOffsets(prefix + IntString(dx) + ", " + IntString(dy) + ")") == Some((dx, dy))
  {
    NoSignsInNumber(dx);
    NoSignsInNumber(dy);
    IntStringRoundTrip(dx);
    IntStringRoundTrip(dy);
    var a, b := IntString(dx), IntString(dy);
    assert prefix + a + ", " + b + ")" == prefix + (a + ", " + b + ")");
    ParseOffsetsEnd(prefix, a, b, dx, dy);
  }
}
