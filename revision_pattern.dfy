/** The part of `java.util.regex` that revision matching goes through:
    `Pattern.compile(constraint).matcher(revision).matches()`, a whole-string
    match. The model interprets a subset of the syntax: literal characters,
    `.` (any character but a line terminator) and the greedy postfix
    quantifiers `+` and `*`. */
module RevisionPattern {
  import opened Wrappers
  import opened Exceptions

  datatype Atom = Literal(c: char) | AnyChar
  datatype Quantifier = Once | OneOrMore | ZeroOrMore
  datatype Piece = Piece(atom: Atom, quantifier: Quantifier)

  /** A compiled pattern: a sequence of quantified atoms. */
  type Regex = seq<Piece>

  /** Characters with a meaning in Java's syntax (outside a character class)
      that the subset does not interpret. */
  predicate IsUnsupportedMeta(c: char) {
    c in "\\^$|?()[]{}"
  }

  predicate IsQuantifier(c: char) {
    c == '+' || c == '*'
  }

  /** The characters Java's `.` refuses when DOTALL is off. */
  predicate IsLineTerminator(c: char) {
    c == '\n' || c == '\r' || c == '\U{85}' || c == '\U{2028}' || c == '\U{2029}'
  }

  predicate AtomMatches(a: Atom, c: char) {
    match a
    case Literal(x) => c == x
    case AnyChar => !IsLineTerminator(c)
  }

  /** An atom as the compiler builds it: a literal is never a character that
      the syntax reads otherwise (`.`, a quantifier, an unsupported
      metacharacter). */
  predicate CanonicalAtom(a: Atom) {
    a.Literal? ==> a.c != '.' && !IsQuantifier(a.c) && !IsUnsupportedMeta(a.c)
  }

  predicate Canonical(re: Regex) {
    forall i :: 0 <= i < |re| ==> CanonicalAtom(re[i].atom)
  }

  /** `Pattern.compile(p)`: fails with PatternSyntax on a quantifier that
      follows nothing or follows another greedy quantifier (Java's "dangling
      meta character"), and with PatternUnsupported on syntax outside the
      subset, including the possessive `++` and `*+`. */
  function Compile(p: string): (r: Result<Regex, Fault>)
    ensures r.Success? ==> |r.value| <= |p| && Canonical(r.value)
    ensures r.Failure? ==> r.error == PatternSyntax || r.error == PatternUnsupported
  {
    if p == [] then Success([])
    else if IsUnsupportedMeta(p[0]) then Failure(PatternUnsupported)
    else if IsQuantifier(p[0]) then Failure(PatternSyntax)
    else
      var atom := if p[0] == '.' then AnyChar else Literal(p[0]);
      if |p| == 1 || !IsQuantifier(p[1]) then
        match Compile(p[1..])
        case Failure(e) => Failure(e)
        case Success(rest) => Success([Piece(atom, Once)] + rest)
      else if |p| > 2 && p[2] == '+' then Failure(PatternUnsupported)
      else
        var q := if p[1] == '+' then OneOrMore else ZeroOrMore;
        match Compile(p[2..])
        case Failure(e) => Failure(e)
        case Success(rest) => Success([Piece(atom, q)] + rest)
  }

  /** The number of pieces that must consume a character. */
  function MinLength(re: Regex): nat {
    if re == [] then 0 else (if re[0].quantifier == ZeroOrMore then 0 else 1) + MinLength(re[1..])
  }

  /** `matcher(s).matches()`: the whole of `s` is matched by `re`, trying the
      alternatives a backtracking matcher tries. */
  predicate Matches(re: Regex, s: string)
    decreases |s|, |re|
    ensures Matches(re, s) ==> MinLength(re) <= |s|
  {
    if re == [] then s == []
    else
      var a := re[0].atom;
      match re[0].quantifier
      case Once => |s| > 0 && AtomMatches(a, s[0]) && Matches(re[1..], s[1..])
      case ZeroOrMore =>
        Matches(re[1..], s) || (|s| > 0 && AtomMatches(a, s[0]) && Matches(re, s[1..]))
      case OneOrMore =>
        |s| > 0 && AtomMatches(a, s[0]) && Matches([Piece(a, ZeroOrMore)] + re[1..], s[1..])
  }

  /** The word `w` belongs to the language of one quantified atom. */
  ghost predicate PieceGenerates(p: Piece, w: string) {
    match p.quantifier
    case Once => |w| == 1 && AtomMatches(p.atom, w[0])
    case OneOrMore => |w| >= 1 && forall i :: 0 <= i < |w| ==> AtomMatches(p.atom, w[i])
    case ZeroOrMore => forall i :: 0 <= i < |w| ==> AtomMatches(p.atom, w[i])
  }

  /** The language of a pattern, by splitting: an independent reference
      definition of what a full match means. */
  ghost predicate Generates(re: Regex, s: string)
    decreases |re|
  {
    if re == [] then s == []
    else exists k :: 0 <= k <= |s| && PieceGenerates(re[0], s[..k]) && Generates(re[1..], s[k..])
  }

  lemma {:induction false} MatchesSound(re: Regex, s: string)
    requires Matches(re, s)
    ensures Generates(re, s)
    decreases |s|, |re|
  {
    if re != [] {
      var a := re[0].atom;
      match re[0].quantifier
      case Once =>
        MatchesSound(re[1..], s[1..]);
        assert s[..1] == [s[0]] && s[1..] == s[1..];
        assert PieceGenerates(re[0], s[..1]) && Generates(re[1..], s[1..]);
      case ZeroOrMore =>
        if Matches(re[1..], s) {
          MatchesSound(re[1..], s);
          assert s[..0] == [] && s[0..] == s;
          assert PieceGenerates(re[0], s[..0]) && Generates(re[1..], s[0..]);
        } else {
          MatchesSound(re, s[1..]);
          var k :| 0 <= k <= |s[1..]| && PieceGenerates(re[0], s[1..][..k]) && Generates(re[1..], s[1..][k..]);
          GeneratesPrepend(re, s, k);
        }
      case OneOrMore =>
        var re' := [Piece(a, ZeroOrMore)] + re[1..];
        assert re'[1..] == re[1..];
        MatchesSound(re', s[1..]);
        var k :| 0 <= k <= |s[1..]| && PieceGenerates(re'[0], s[1..][..k]) && Generates(re'[1..], s[1..][k..]);
        GeneratesPrepend(re, s, k);
    }
  }

  /** A character the first atom accepts, in front of a word of its starred
      form, is a word of a starred or plussed first piece. */
  lemma GeneratesPrepend(re: Regex, s: string, k: nat)
    requires re != [] && re[0].quantifier != Once && |s| > 0
    requires AtomMatches(re[0].atom, s[0])
    requires k <= |s| - 1
    requires PieceGenerates(Piece(re[0].atom, ZeroOrMore), s[1..][..k])
    requires Generates(re[1..], s[1..][k..])
    ensures Generates(re, s)
  {
    assert s[..k + 1] == [s[0]] + s[1..][..k];
    assert s[k + 1..] == s[1..][k..];
    assert PieceGenerates(re[0], s[..k + 1]);
  }

  lemma {:induction false} MatchesComplete(re: Regex, s: string)
    requires Generates(re, s)
    ensures Matches(re, s)
    decreases |s|, |re|
  {
    if re != [] {
      var a := re[0].atom;
      var k :| 0 <= k <= |s| && PieceGenerates(re[0], s[..k]) && Generates(re[1..], s[k..]);
      match re[0].quantifier
      case Once =>
        assert s[..k][0] == s[0];
        MatchesComplete(re[1..], s[1..]);
      case ZeroOrMore =>
        if k == 0 {
          assert s[k..] == s;
          MatchesComplete(re[1..], s);
        } else {
          assert s[..k][0] == s[0];
          assert s[1..][..k - 1] == s[1..k];
          assert s[1..][k - 1..] == s[k..];
          assert s[1..][..k - 1] == s[..k][1..];
          assert PieceGenerates(re[0], s[1..][..k - 1]);
          assert Generates(re, s[1..]);
          MatchesComplete(re, s[1..]);
        }
      case OneOrMore =>
        var re' := [Piece(a, ZeroOrMore)] + re[1..];
        assert re'[1..] == re[1..];
        assert s[..k][0] == s[0];
        assert s[1..][..k - 1] == s[1..k];
        assert s[1..][k - 1..] == s[k..];
        assert s[1..][..k - 1] == s[..k][1..];
        assert PieceGenerates(re'[0], s[1..][..k - 1]);
        assert Generates(re', s[1..]);
        MatchesComplete(re', s[1..]);
    }
  }

  /** The source text of one atom. */
  function AtomText(a: Atom): char {
    match a
    case Literal(c) => c
    case AnyChar => '.'
  }

  /** The source text of one quantifier. */
  function QuantifierText(q: Quantifier): string {
    match q
    case Once => ""
    case OneOrMore => "+"
    case ZeroOrMore => "*"
  }

  /** The pattern text a compiled pattern comes from. */
  function Render(re: Regex): string {
    if re == [] then "" else [AtomText(re[0].atom)] + QuantifierText(re[0].quantifier) + Render(re[1..])
  }

  /** The accepted syntax, stated on the text: no unsupported metacharacter,
      and every quantifier follows a character that is not a quantifier. */
  predicate InSubset(p: string) {
    && (forall i :: 0 <= i < |p| ==> !IsUnsupportedMeta(p[i]))
    && (forall i :: 0 <= i < |p| && IsQuantifier(p[i]) ==> 0 < i && !IsQuantifier(p[i - 1]))
  }

  /** Compiling loses nothing: a compiled pattern renders back to its text. */
  lemma {:induction false} CompileRoundTrip(p: string)
    requires Compile(p).Success?
    ensures Render(Compile(p).value) == p
  {
    if p != [] {
      var atom := if p[0] == '.' then AnyChar else Literal(p[0]);
      assert AtomText(atom) == p[0];
      var re := Compile(p).value;
      if |p| == 1 || !IsQuantifier(p[1]) {
        CompileRoundTrip(p[1..]);
        assert re[0] == Piece(atom, Once) && re[1..] == Compile(p[1..]).value;
        assert p == [p[0]] + p[1..];
      } else {
        CompileRoundTrip(p[2..]);
        assert re[1..] == Compile(p[2..]).value;
        assert QuantifierText(re[0].quantifier) == [p[1]];
        assert p == [p[0]] + [p[1]] + p[2..];
      }
    }
  }

  /** Dropping a first character that is plain and not followed by a
      quantifier keeps a text inside or outside the subset. */
  lemma InSubsetDropPlain(p: string)
    requires |p| >= 1 && !IsUnsupportedMeta(p[0]) && !IsQuantifier(p[0])
    requires |p| == 1 || !IsQuantifier(p[1])
    ensures InSubset(p) <==> InSubset(p[1..])
  {
    var t := p[1..];
    assert forall i :: 0 <= i < |t| ==> t[i] == p[i + 1];
    if InSubset(t) {
      forall j | 0 <= j < |p| && IsQuantifier(p[j])
        ensures 0 < j && !IsQuantifier(p[j - 1])
      {
        assert j >= 2;
        assert t[j - 1] == p[j] && t[j - 2] == p[j - 1];
      }
    }
  }

  /** Dropping a plain character and the quantifier after it keeps a text
      inside or outside the subset. */
  lemma InSubsetDropQuantified(p: string)
    requires |p| >= 2 && !IsUnsupportedMeta(p[0]) && !IsQuantifier(p[0]) && IsQuantifier(p[1])
    ensures InSubset(p) <==> InSubset(p[2..])
  {
    var t := p[2..];
    assert forall i :: 0 <= i < |t| ==> t[i] == p[i + 2];
    if InSubset(t) {
      forall j | 0 <= j < |p| && IsQuantifier(p[j])
        ensures 0 < j && !IsQuantifier(p[j - 1])
      {
        if j >= 2 {
          assert j >= 3;
          assert t[j - 2] == p[j] && t[j - 3] == p[j - 1];
        }
      }
    }
  }

  /** Compiling succeeds exactly on the text of the subset. */
  lemma {:induction false} CompileSucceedsIff(p: string)
    ensures Compile(p).Success? <==> InSubset(p)
  {
    if p == [] {
    } else if IsUnsupportedMeta(p[0]) || IsQuantifier(p[0]) {
      assert !InSubset(p);
    } else if |p| == 1 || !IsQuantifier(p[1]) {
      CompileSucceedsIff(p[1..]);
      InSubsetDropPlain(p);
    } else if |p| > 2 && p[2] == '+' {
      assert !InSubset(p) by {
        assert IsQuantifier(p[2]) && IsQuantifier(p[1]);
      }
    } else {
      CompileSucceedsIff(p[2..]);
      InSubsetDropQuantified(p);
    }
  }

  /** Compiling inverts rendering: every pattern the compiler can build is
      compiled back from its text, with `.` as the wildcard and `+`/`*` as
      quantifiers. */
  lemma {:induction false} CompileInvertsRender(re: Regex)
    requires Canonical(re)
    ensures Compile(Render(re)) == Success(re)
  {
    if re != [] {
      var rest := re[1..];
      var p := Render(re);
      var c := AtomText(re[0].atom);
      var q := QuantifierText(re[0].quantifier);
      assert p == [c] + q + Render(rest);
      CompileInvertsRender(rest);
      assert Render(rest) == [] || !IsQuantifier(Render(rest)[0]) by {
        if rest != [] {
          assert Render(rest)[0] == AtomText(rest[0].atom);
          assert CanonicalAtom(rest[0].atom);
        }
      }
      assert CanonicalAtom(re[0].atom);
      assert (if c == '.' then AnyChar else Literal(c)) == re[0].atom;
      if q == [] {
        assert p[1..] == Render(rest);
        assert [Piece(re[0].atom, Once)] + rest == re;
      } else {
        assert p[2..] == Render(rest);
        assert [Piece(re[0].atom, re[0].quantifier)] + rest == re;
      }
    }
  }

  /** Different compiled patterns have different texts, so the round trip
      `CompileRoundTrip` fixes every piece. */
  lemma RenderInjective(a: Regex, b: Regex)
    requires Canonical(a) && Canonical(b)
    requires Render(a) == Render(b)
    ensures a == b
  {
    CompileInvertsRender(a);
    CompileInvertsRender(b);
  }

  /** A version-number constraint is read as a regular expression: the dot
      in `1.0` stands for any character. */
  lemma VersionDotIsWildcard()
    ensures Compile("1.0").Success?
    ensures Matches(Compile("1.0").value, "1.0")
    ensures Matches(Compile("1.0").value, "1x0")
    ensures !Matches(Compile("1.0").value, "1.00")
  {
    var re := [Piece(Literal('1'), Once), Piece(AnyChar, Once), Piece(Literal('0'), Once)];
    assert Render(re) == "1.0";
    CompileInvertsRender(re);
    assert re[1..][1..] == [Piece(Literal('0'), Once)];
  }

  /** The backtracking matcher decides exactly the language of the pattern. */
  lemma MatchesIffGenerates(re: Regex, s: string)
    ensures Matches(re, s) <==> Generates(re, s)
  {
    if Matches(re, s) { MatchesSound(re, s); }
    if Generates(re, s) { MatchesComplete(re, s); }
  }

  /** A constraint made of characters that are plain literals in Java's
      syntax. */
  predicate IsPlainLiteral(p: string) {
    forall i :: 0 <= i < |p| ==> !IsUnsupportedMeta(p[i]) && !IsQuantifier(p[i]) && p[i] != '.'
  }

  function LiteralPieces(p: string): (r: Regex)
    ensures |r| == |p|
  {
    if p == [] then [] else [Piece(Literal(p[0]), Once)] + LiteralPieces(p[1..])
  }

  lemma {:induction false} CompileLiteral(p: string, tail: string)
    requires IsPlainLiteral(p)
    requires tail == [] || !IsQuantifier(tail[0])
    ensures Compile(tail).Failure? ==> Compile(p + tail) == Compile(tail)
    ensures Compile(tail).Success? ==> Compile(p + tail) == Success(LiteralPieces(p) + Compile(tail).value)
  {
    if p == [] {
      assert p + tail == tail;
      if Compile(tail).Success? {
        assert LiteralPieces(p) + Compile(tail).value == Compile(tail).value;
      }
    } else {
      var pt := p + tail;
      assert pt[0] == p[0];
      assert pt[1..] == p[1..] + tail;
      assert |pt| == 1 || !IsQuantifier(pt[1]) by {
        if |p| == 1 {
          assert p[1..] + tail == tail;
        } else {
          assert pt[1] == p[1];
        }
      }
      CompileLiteral(p[1..], tail);
      if Compile(tail).Success? {
        var x := [Piece(Literal(p[0]), Once)];
        assert x + (LiteralPieces(p[1..]) + Compile(tail).value)
            == (x + LiteralPieces(p[1..])) + Compile(tail).value;
      }
    }
  }

  predicate StartsWithLiteral(s: string, p: string) {
    |p| <= |s| && s[..|p|] == p
  }

  lemma StartsWithLiteralStep(s: string, p: string)
    requires |p| > 0 && |s| > 0
    ensures StartsWithLiteral(s, p) <==> s[0] == p[0] && StartsWithLiteral(s[1..], p[1..])
  {
    if |p| <= |s| {
      assert s[..|p|] == [s[0]] + s[1..][..|p| - 1];
      assert p == [p[0]] + p[1..];
    }
  }

  lemma {:induction false} MatchesLiteralPrefix(p: string, rest: Regex, s: string)
    ensures Matches(LiteralPieces(p) + rest, s) <==> StartsWithLiteral(s, p) && Matches(rest, s[|p|..])
  {
    if p == [] {
      assert LiteralPieces(p) + rest == rest;
    } else {
      var re := LiteralPieces(p) + rest;
      assert re[0] == Piece(Literal(p[0]), Once);
      assert re[1..] == LiteralPieces(p[1..]) + rest;
      if |s| == 0 {
        assert !Matches(re, s);
      } else {
        assert Matches(re, s) <==> s[0] == p[0] && Matches(re[1..], s[1..]);
        MatchesLiteralPrefix(p[1..], rest, s[1..]);
        StartsWithLiteralStep(s, p);
        if |p| <= |s| {
          assert s[1..][|p| - 1..] == s[|p|..];
        }
      }
    }
  }

  /** A literal constraint matches exactly the revision that equals it. */
  lemma LiteralConstraintIsExact(p: string, s: string)
    requires IsPlainLiteral(p)
    ensures Compile(p).Success?
    ensures Matches(Compile(p).value, s) <==> s == p
  {
    CompileLiteral(p, []);
    assert p + [] == p;
    assert LiteralPieces(p) + [] == LiteralPieces(p);
    MatchesLiteralPrefix(p, [], s);
  }

  lemma {:induction false} AnyStarMatches(s: string)
    ensures Matches([Piece(AnyChar, ZeroOrMore)], s) <==> forall i :: 0 <= i < |s| ==> !IsLineTerminator(s[i])
    decreases |s|
  {
    var re := [Piece(AnyChar, ZeroOrMore)];
    assert re[1..] == [];
    if |s| > 0 {
      AnyStarMatches(s[1..]);
      assert forall i :: 1 <= i < |s| ==> s[i] == s[1..][i - 1];
    }
  }

  lemma AnyPlusMatches(t: string)
    ensures Matches([Piece(AnyChar, OneOrMore)], t) <==> |t| > 0 && forall i :: 0 <= i < |t| ==> !IsLineTerminator(t[i])
  {
    var re := [Piece(AnyChar, OneOrMore)];
    assert re[1..] == [];
    assert [Piece(AnyChar, ZeroOrMore)] + re[1..] == [Piece(AnyChar, ZeroOrMore)];
    if |t| > 0 {
      AnyStarMatches(t[1..]);
      assert forall i :: 1 <= i < |t| ==> t[i] == t[1..][i - 1];
    }
  }

  /** A constraint `p.+` with `p` literal, such as `1.+`, accepts exactly the
      revisions that begin with `p` and have at least one more character, none
      of them a line terminator. */
  lemma LiteralDotPlus(p: string, s: string)
    requires IsPlainLiteral(p)
    ensures Compile(p + ".+").Success?
    ensures Matches(Compile(p + ".+").value, s) <==>
              |p| < |s| && s[..|p|] == p && forall i :: |p| <= i < |s| ==> !IsLineTerminator(s[i])
  {
    var re := [Piece(AnyChar, OneOrMore)];
    CompileDotPlus();
    CompileLiteral(p, ".+");
    assert Compile(p + ".+") == Success(LiteralPieces(p) + re);
    MatchesLiteralPrefix(p, re, s);
    if |p| <= |s| {
      TailWithoutTerminators(s, |p|);
    }
  }

  lemma CompileDotPlus()
    ensures Compile(".+") == Success([Piece(AnyChar, OneOrMore)])
  {
    var tail := ".+";
    assert !IsUnsupportedMeta(tail[0]) && !IsQuantifier(tail[0]) && IsQuantifier(tail[1]);
    assert Compile(tail[2..]) == Success([]);
    assert [Piece(AnyChar, OneOrMore)] + [] == [Piece(AnyChar, OneOrMore)];
  }

  lemma TailWithoutTerminators(s: string, n: nat)
    requires n <= |s|
    ensures Matches([Piece(AnyChar, OneOrMore)], s[n..]) <==>
              n < |s| && forall i :: n <= i < |s| ==> !IsLineTerminator(s[i])
  {
    var t := s[n..];
    AnyPlusMatches(t);
    assert forall i :: n <= i < |s| ==> s[i] == t[i - n];
  }
}
