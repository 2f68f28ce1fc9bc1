/** Shell-style pattern matching as performed by `fnmatch(pattern, string, 0)`
    (IEEE Std 1003.1-2017, `fnmatch()`, with the pattern notation of XCU
    sections 2.13.1 and 2.13.2), which `DiskSource::matches` uses to classify
    a device's sysfs path.

    With flags 0 no character is special in the string: `*` and `?` match
    `/`, and a leading `.` needs no explicit match. In the pattern:
    - `*` matches any string, including the empty one;
    - `?` matches any one character;
    - `[...]` matches one character from a set of characters and ranges,
      `[!...]` (or `[^...]`) one character outside it; a `]` right after `[`,
      `[!` or `[^` is a member; an escaped character is a member; a `[` with
      no closing `]` is an ordinary character;
    - a backslash makes the next character ordinary; a backslash that ends
      the pattern matches a backslash;
    - every other character matches itself.
    The match must cover the whole string. */
module FnMatch {
  import opened Wrappers

  /** One member of a bracket expression. */
  datatype BracketItem = Single(c: char) | Span(lo: char, hi: char)
  {
    predicate Covers(x: char) {
      match this
      case Single(c) => x == c
      case Span(lo, hi) => lo <= x <= hi
    }
  }

  /** A bracket expression: its members, and whether it was written `[!...]`
      or `[^...]`. */
  datatype Bracket = Bracket(negated: bool, items: seq<BracketItem>)
  {
    predicate Accepts(x: char) {
      (exists i :: 0 <= i < |items| && items[i].Covers(x)) != negated
    }
  }

  /** Reads one member character of a bracket expression, honouring a
      backslash escape; `None` when the pattern ends first. */
  function ReadBracketChar(q: string): (r: Option<(char, string)>)
    ensures r.Some? ==> |r.value.1| < |q|
    ensures r.None? <==> |q| == 0 || q == "\\"
  {
    if |q| == 0 then None
    else if q[0] == '\\' then (if |q| == 1 then None else Some((q[1], q[2..])))
    else Some((q[0], q[1..]))
  }

  /** Parses members up to the closing `]` and returns them with the text
      after it; `None` when no closing `]` follows. A `]` in the `first`
      position is a member. */
  function ParseItems(q: string, first: bool): (r: Option<(seq<BracketItem>, string)>)
    ensures r.Some? ==> |r.value.1| < |q|
    ensures r.Some? && !first && |r.value.0| == 0 ==> q[0] == ']'
    decreases |q|
  {
    if |q| == 0 then None
    else if q[0] == ']' && !first then Some(([], q[1..]))
    else
      match ReadBracketChar(q)
      case None => None
      case Some((lo, q1)) =>
        if |q1| >= 2 && q1[0] == '-' && q1[1] != ']' then
          match ReadBracketChar(q1[1..])
          case None => None
          case Some((hi, q2)) =>
            match ParseItems(q2, false)
            case None => None
            case Some((items, rest)) => Some(([Span(lo, hi)] + items, rest))
        else
          match ParseItems(q1, false)
          case None => None
          case Some((items, rest)) => Some(([Single(lo)] + items, rest))
  }

  /** Parses the bracket expression that follows a `[`; `None` when the `[`
      does not open one and is therefore an ordinary character. */
  function ParseBracket(q: string): (r: Option<(Bracket, string)>)
    ensures r.Some? ==> |r.value.1| < |q|
    ensures r.Some? ==> |r.value.0.items| > 0
    ensures r.Some? ==> (r.value.0.negated <==> q[0] == '!' || q[0] == '^')
  {
    var negated := |q| > 0 && (q[0] == '!' || q[0] == '^');
    var body := if negated then q[1..] else q;
    match ParseItems(body, true)
    case None => None
    case Some((items, rest)) => Some((Bracket(negated, items), rest))
  }

  /** `fnmatch(p, s, 0) == 0`: whether pattern `p` matches all of `s`. */
  function Match(p: string, s: string): (r: bool)
    decreases |p|, |s|
  {
    if |p| == 0 then |s| == 0
    else if p[0] == '*' then Match(p[1..], s) || (|s| > 0 && Match(p, s[1..]))
    else if p[0] == '?' then |s| > 0 && Match(p[1..], s[1..])
    else if p[0] == '[' then
      match ParseBracket(p[1..])
      case Some((b, rest)) => |s| > 0 && b.Accepts(s[0]) && Match(rest, s[1..])
      case None => |s| > 0 && s[0] == '[' && Match(p[1..], s[1..])
    else if p[0] == '\\' && |p| >= 2 then |s| > 0 && s[0] == p[1] && Match(p[2..], s[1..])
    else |s| > 0 && s[0] == p[0] && Match(p[1..], s[1..])
  }

  /** A character that is special in a pattern under flags 0. */
  predicate IsMeta(c: char) {
    c == '*' || c == '?' || c == '[' || c == '\\'
  }

  /** A pattern without special characters matches exactly itself. */
  lemma {:induction false} LiteralPatternMatchesOnlyItself(p: string, s: string)
    requires forall i :: 0 <= i < |p| ==> !IsMeta(p[i])
    ensures Match(p, s) <==> s == p
    decreases |p|
  {
    if |p| > 0 {
      LiteralPatternMatchesOnlyItself(p[1..], if |s| > 0 then s[1..] else s);
      if |s| > 0 && s[0] == p[0] && s[1..] == p[1..] {
        assert s == [s[0]] + s[1..] && p == [p[0]] + p[1..];
      }
    }
  }

  /** `*` alone matches every string, including ones with `/` and a leading `.`. */
  lemma {:induction false} StarMatchesEverything(s: string)
    ensures Match("*", s)
    decreases |s|
  {
    if |s| > 0 {
      StarMatchesEverything(s[1..]);
    }
  }

  /** `?` matches any single character, `/` and `.` included. */
  lemma QuestionMatchesAnyCharacter(c: char)
    ensures Match("?", [c])
    ensures !Match("?", [])
  {
    assert "?"[1..] == [];
    assert [c][1..] == [];
  }

  /** Bracket members that stand for themselves: no escape, no range, no
      closing bracket. */
  predicate PlainMembers(body: string) {
    forall i :: 0 <= i < |body| ==> body[i] != '\\' && body[i] != '-' && body[i] != ']'
  }

  /** One `Single` member per character. */
  function Singles(body: string): (r: seq<BracketItem>)
    ensures |r| == |body|
    ensures forall i :: 0 <= i < |body| ==> r[i] == Single(body[i])
  {
    seq(|body|, i requires 0 <= i < |body| => Single(body[i]))
  }

  /** Plain members up to a `]` parse to one member each, and the `]` closes
      the expression (unless it comes first, where it would be a member). */
  lemma {:induction false} ParsePlainItems(body: string, rest: string, first: bool)
    requires PlainMembers(body) && (|body| > 0 || !first)
    ensures ParseItems(body + "]" + rest, first) == Some((Singles(body), rest))
    decreases |body|
  {
    var q := body + "]" + rest;
    if |body| == 0 {
      assert q == "]" + rest;
      assert q[1..] == rest;
    } else {
      var q1 := body[1..] + "]" + rest;
      assert q[0] == body[0] && q[1..] == q1;
      assert PlainMembers(body[1..]) by {
        forall i | 0 <= i < |body[1..]| ensures body[1..][i] == body[i + 1] {}
      }
      assert q1[0] != '-' by {
        if |body| > 1 {
          assert q1[0] == body[1];
        }
      }
      ParsePlainItems(body[1..], rest, false);
      assert Singles(body) == [Single(body[0])] + Singles(body[1..]);
    }
  }

  /** A list of plain members accepts exactly the listed characters. */
  lemma SinglesAccept(body: string, c: char)
    ensures (exists i :: 0 <= i < |Singles(body)| && Singles(body)[i].Covers(c)) <==> c in body
  {
    if c in body {
      var i :| 0 <= i < |body| && body[i] == c;
      assert Singles(body)[i].Covers(c);
    }
  }

  /** A bracket expression that ends the pattern matches a one-character
      string exactly when it accepts that character. */
  lemma BracketMatchesOne(q: string, b: Bracket, c: char)
    requires ParseBracket(q) == Some((b, ""))
    ensures Match("[" + q, [c]) <==> b.Accepts(c)
  {
    var p := "[" + q;
    assert p[1..] == q;
    assert [c][1..] == "";
  }

  /** `[body]` with plain members matches one character exactly when it is
      listed. */
  lemma ListedCharactersBracket(body: string, c: char)
    requires |body| > 0 && PlainMembers(body) && body[0] != '!' && body[0] != '^'
    ensures Match("[" + body + "]", [c]) <==> c in body
  {
    var q := body + "]";
    assert q == body + "]" + "";
    ParsePlainItems(body, "", true);
    assert ParseBracket(q) == Some((Bracket(false, Singles(body)), ""));
    assert "[" + body + "]" == "[" + q;
    BracketMatchesOne(q, Bracket(false, Singles(body)), c);
    SinglesAccept(body, c);
  }

  /** `[!body]` and `[^body]` with plain members match one character exactly
      when it is not listed. */
  lemma UnlistedCharactersBracket(neg: char, body: string, c: char)
    requires neg == '!' || neg == '^'
    requires |body| > 0 && PlainMembers(body)
    ensures Match("[" + [neg] + body + "]", [c]) <==> c !in body
  {
    var q := [neg] + body + "]";
    NegatedPlainBracket(neg, body);
    assert "[" + [neg] + body + "]" == "[" + q;
    BracketMatchesOne(q, Bracket(true, Singles(body)), c);
    SinglesAccept(body, c);
  }

  /** A negated list of plain members parses to its members, negated. */
  lemma NegatedPlainBracket(neg: char, body: string)
    requires neg == '!' || neg == '^'
    requires |body| > 0 && PlainMembers(body)
    ensures ParseBracket([neg] + body + "]") == Some((Bracket(true, Singles(body)), ""))
  {
    var q := [neg] + body + "]";
    assert q[1..] == body + "]" + "";
    ParsePlainItems(body, "", true);
  }

  /** A `]` right after `[` is a member, not the end of the expression. */
  lemma LeadingBracketIsMember(body: string, c: char)
    requires PlainMembers(body)
    ensures Match("[]" + body + "]", [c]) <==> c == ']' || c in body
  {
    var q := "]" + body + "]";
    var q1 := body + "]" + "";
    assert q[1..] == q1;
    assert ReadBracketChar(q) == Some((']', q1));
    assert q1[0] != '-' by {
      if |body| > 0 {
        assert q1[0] == body[0];
      }
    }
    ParsePlainItems(body, "", false);
    var items := [Single(']')] + Singles(body);
    assert ParseItems(q, true) == Some((items, ""));
    assert ParseBracket(q) == Some((Bracket(false, items), ""));
    assert "[]" + body + "]" == "[" + q;
    BracketMatchesOne(q, Bracket(false, items), c);
    SinglesAccept(body, c);
    if c in body {
      var i :| 0 <= i < |body| && body[i] == c;
      assert items[i + 1].Covers(c);
    }
    if c == ']' {
      assert items[0].Covers(c);
    }
    if exists i :: 0 <= i < |items| && items[i].Covers(c) {
      var i :| 0 <= i < |items| && items[i].Covers(c);
      if i > 0 {
        assert items[i] == Singles(body)[i - 1];
      }
    }
  }

  /** `[lo-hi]` matches one character exactly when it lies in the range. */
  lemma RangeBracket(lo: char, hi: char, c: char)
    requires lo != '!' && lo != '^' && lo != '\\' && lo != ']'
    requires hi != '\\' && hi != ']'
    ensures Match(['[', lo, '-', hi, ']'], [c]) <==> lo <= c <= hi
  {
    var q := [lo, '-', hi, ']'];
    var q1 := ['-', hi, ']'];
    assert q[1..] == q1;
    assert ReadBracketChar(q) == Some((lo, q1));
    assert q1[1..] == [hi, ']'];
    assert [hi, ']'][1..] == [']'];
    assert ReadBracketChar(q1[1..]) == Some((hi, [']']));
    assert [']'][1..] == [];
    assert ParseItems([']'], false) == Some(([], []));
    assert |q1| == 3 && q1[0] == '-' && q1[1] == hi && q[0] == lo;
    assert [Span(lo, hi)] + [] == [Span(lo, hi)];
    assert ParseItems(q, true) == Some(([Span(lo, hi)], []));
    var b := Bracket(false, [Span(lo, hi)]);
    assert ParseBracket(q) == Some((b, ""));
    assert ['[', lo, '-', hi, ']'] == "[" + q;
    BracketMatchesOne(q, b, c);
    assert b.Accepts(c) <==> b.items[0].Covers(c);
  }

  /** A `[` that no `]` follows is an ordinary character. */
  lemma UnclosedBracketIsLiteral(q: string, s: string)
    requires ']' !in q
    ensures Match("[" + q, s) <==> |s| > 0 && s[0] == '[' && Match(q, s[1..])
  {
    var p := "[" + q;
    assert p[1..] == q;
    var body := if |q| > 0 && (q[0] == '!' || q[0] == '^') then q[1..] else q;
    assert ']' !in body by {
      if body != q {
        assert forall x :: x in q[1..] ==> x in q;
      }
    }
    UnclosedItems(body, true);
  }

  /** Without a `]` the members never close. */
  lemma {:induction false} UnclosedItems(q: string, first: bool)
    requires ']' !in q
    ensures ParseItems(q, first).None?
    decreases |q|
  {
    if |q| > 0 {
      assert q[0] != ']' by { assert q[0] in q; }
      assert forall x :: x in q[1..] ==> x in q;
      if q[0] == '\\' && |q| > 1 {
        assert forall x :: x in q[2..] ==> x in q;
      }
      match ReadBracketChar(q)
      case None =>
      case Some((lo, q1)) =>
        assert ']' !in q1;
        if |q1| >= 2 && q1[0] == '-' && q1[1] != ']' {
          assert forall x :: x in q1[1..] ==> x in q1;
          match ReadBracketChar(q1[1..])
          case None =>
          case Some((hi, q2)) =>
            if q1[1] == '\\' {
              assert q2 == q1[3..];
              assert forall x :: x in q1[3..] ==> x in q1;
            } else {
              assert q2 == q1[2..];
              assert forall x :: x in q1[2..] ==> x in q1;
            }
            UnclosedItems(q2, false);
        } else {
          UnclosedItems(q1, false);
        }
    }
  }
}
