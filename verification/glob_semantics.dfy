/** A declarative reading of `fnmatch` patterns, independent of the matching
    algorithm: a pattern is read as a sequence of atoms, and a string is in a
    pattern's language when it splits into consecutive pieces, one per atom,
    each piece allowed by its atom. The matcher in `FnMatch` tries the
    possible lengths for a `*` one at a time; the theorem here shows that it
    decides exactly this language. */
module GlobSemantics {
  import opened Wrappers
  import opened FnMatch

  /** One pattern element: an ordinary character, `?`, `*`, or a bracket expression. */
  datatype Atom = Literal(c: char) | AnyChar | AnyString | Class(b: Bracket)

  /** Reads a pattern as atoms, by the same rules the matcher follows. */
  function Lex(p: string): (r: seq<Atom>)
    ensures |r| <= |p|
    decreases |p|
  {
    if |p| == 0 then []
    else if p[0] == '*' then [AnyString] + Lex(p[1..])
    else if p[0] == '?' then [AnyChar] + Lex(p[1..])
    else if p[0] == '[' then
      match ParseBracket(p[1..])
      case Some((b, rest)) => [Class(b)] + Lex(rest)
      case None => [Literal('[')] + Lex(p[1..])
    else if p[0] == '\\' && |p| >= 2 then [Literal(p[1])] + Lex(p[2..])
    else [Literal(p[0])] + Lex(p[1..])
  }

  /** Whether `s` splits into pieces matched by the atoms in order: a
      `Literal`, `AnyChar` or `Class` takes one allowed character, an
      `AnyString` takes any piece of any length. */
  predicate Denotes(atoms: seq<Atom>, s: string)
    decreases |atoms|
  {
    if |atoms| == 0 then |s| == 0
    else match atoms[0]
      case Literal(c) => |s| > 0 && s[0] == c && Denotes(atoms[1..], s[1..])
      case AnyChar => |s| > 0 && Denotes(atoms[1..], s[1..])
      case Class(b) => |s| > 0 && b.Accepts(s[0]) && Denotes(atoms[1..], s[1..])
      case AnyString => exists k :: 0 <= k <= |s| && Denotes(atoms[1..], s[k..])
  }

  /** The matcher accepts exactly the strings in the pattern's language. */
  lemma {:induction false} MatchIffDenotes(p: string, s: string)
    ensures Match(p, s) <==> Denotes(Lex(p), s)
    decreases |p|, |s|
  {
    if |p| == 0 {
    } else if p[0] == '*' {
      StarCase(p, s);
    } else if p[0] == '?' {
      if |s| > 0 {
        MatchIffDenotes(p[1..], s[1..]);
      }
    } else if p[0] == '[' {
      match ParseBracket(p[1..])
      case Some((b, rest)) =>
        if |s| > 0 {
          MatchIffDenotes(rest, s[1..]);
        }
      case None =>
        if |s| > 0 {
          MatchIffDenotes(p[1..], s[1..]);
        }
    } else if p[0] == '\\' && |p| >= 2 {
      if |s| > 0 {
        MatchIffDenotes(p[2..], s[1..]);
      }
    } else {
      if |s| > 0 {
        MatchIffDenotes(p[1..], s[1..]);
      }
    }
  }

  /** The `*` step: trying "`*` takes nothing" and then "`*` takes one more
      character" covers every split point. */
  lemma {:induction false} StarCase(p: string, s: string)
    requires |p| > 0 && p[0] == '*'
    ensures Match(p, s) <==> Denotes(Lex(p), s)
    decreases |p|, |s|, 0
  {
    var rest := Lex(p[1..]);
    assert Lex(p) == [AnyString] + rest;
    assert Lex(p)[1..] == rest;
    MatchIffDenotes(p[1..], s);
    if |s| > 0 {
      MatchIffDenotes(p, s[1..]);
    }
    if Match(p, s) {
      if Match(p[1..], s) {
        assert s[0..] == s;
        assert Denotes(rest, s[0..]);
      } else {
        assert Denotes(Lex(p), s[1..]);
        var k :| 0 <= k <= |s[1..]| && Denotes(rest, s[1..][k..]);
        assert s[1..][k..] == s[k + 1..];
        assert Denotes(rest, s[k + 1..]);
      }
    }
    if Denotes(Lex(p), s) {
      var k :| 0 <= k <= |s| && Denotes(rest, s[k..]);
      if k == 0 {
        assert s[0..] == s;
      } else {
        assert s[1..][k - 1..] == s[k..];
        assert Denotes(Lex(p), s[1..]);
      }
    }
  }
}
