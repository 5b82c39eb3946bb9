/**
 * Literal-mode pattern construction (pdfremover.py:57-58, 62-63): every removal
 * string goes through `re.escape`, the results are joined into one group
 * `(s1|s2|...|sn)`, and the group is encoded to bytes for a bytes regular
 * expression. The second half of the module reads such a byte pattern back the
 * way the regex compiler does for the literal part of its syntax, and the round
 * trip shows that the compiled group is the list of the strings' own bytes.
 */
module Pattern {
  import opened Wrappers
  import opened Utf8

  /** The code points `re.escape` puts a backslash in front of: ()[]{}?*+-|^$\.&~#, space, \t \n \r \v \f. */
  predicate IsEscaped(c: char)
  {
    var n := c as int;
    n == 0x28 || n == 0x29 || n == 0x5B || n == 0x5D || n == 0x7B || n == 0x7D || n == 0x3F || n == 0x2A ||
    n == 0x2B || n == 0x2D || n == 0x7C || n == 0x5E || n == 0x24 || n == 0x5C || n == 0x2E || n == 0x26 ||
    n == 0x7E || n == 0x23 || n == 0x20 || n == 0x09 || n == 0x0A || n == 0x0D || n == 0x0B || n == 0x0C
  }

  /** What `re.escape` makes of one character. */
  function EscapeChar(c: char): string
  {
    if IsEscaped(c) then ['\\', c] else [c]
  }

  /** `re.escape`. */
  function Escape(s: string): (r: string)
    ensures |r| >= |s|
    ensures r == s <==> forall i :: 0 <= i < |s| ==> !IsEscaped(s[i])
  {
    if s == [] then [] else EscapeChar(s[0]) + Escape(s[1..])
  }

  /** `list(map(re.escape, args.strings))`. */
  function EscapeAll(strings: seq<string>): (r: seq<string>)
    ensures |r| == |strings|
    ensures forall i :: 0 <= i < |r| ==> r[i] == Escape(strings[i])
  {
    if strings == [] then [] else [Escape(strings[0])] + EscapeAll(strings[1..])
  }

  /** The summed length of a list of sequences. */
  function TotalLength<T>(parts: seq<seq<T>>): nat
  {
    if parts == [] then 0 else |parts[0]| + TotalLength(parts[1..])
  }

  /** `'|'.join(parts)`: the parts in order, one separator between each two. */
  function Join(parts: seq<string>): (r: string)
    ensures parts != [] ==> |r| == TotalLength(parts) + |parts| - 1
    ensures parts != [] ==> r[..|parts[0]|] == parts[0]
  {
    if parts == [] then ""
    else if |parts| == 1 then parts[0]
    else parts[0] + "|" + Join(parts[1..])
  }

  /** Escaping never shortens a list of strings. */
  lemma {:induction false} EscapeAllLength(strings: seq<string>)
    ensures TotalLength(EscapeAll(strings)) >= TotalLength(strings)
  {
    if strings != [] {
      EscapeAllLength(strings[1..]);
      assert EscapeAll(strings)[1..] == EscapeAll(strings[1..]);
    }
  }

  /** The pattern text of pdfremover.py:62 in literal mode: one group holding every escaped string. */
  function LiteralPattern(strings: seq<string>): (r: string)
    ensures |r| >= 2 && r[0] == '(' && r[|r| - 1] == ')'
    ensures strings != [] ==> |r| >= TotalLength(strings) + |strings| + 1
  {
    EscapeAllLength(strings);
    "(" + Join(EscapeAll(strings)) + ")"
  }

  /** Strings with no character `re.escape` escapes go into the pattern as they are, joined by `|`. */
  lemma {:induction false} UnescapedPattern(strings: seq<string>)
    requires forall i, j :: 0 <= i < |strings| && 0 <= j < |strings[i]| ==> !IsEscaped(strings[i][j])
    ensures LiteralPattern(strings) == "(" + Join(strings) + ")"
  {
    forall i | 0 <= i < |strings| ensures EscapeAll(strings)[i] == strings[i] {
      assert forall j :: 0 <= j < |strings[i]| ==> !IsEscaped(strings[i][j]);
    }
    assert EscapeAll(strings) == strings;
  }

  /** The byte alternatives the literal group should stand for: each string's UTF-8 bytes. */
  function EncodeAll(strings: seq<string>): (r: seq<seq<Byte>>)
    ensures |r| == |strings|
    ensures forall i :: 0 <= i < |r| ==> r[i] == Encode(strings[i])
  {
    if strings == [] then [] else [Encode(strings[0])] + EncodeAll(strings[1..])
  }

  const Backslash: Byte := 0x5C
  const Pipe: Byte := 0x7C
  const LeftParen: Byte := 0x28
  const RightParen: Byte := 0x29

  /** Bytes with a meaning of their own in the pattern language when they stand unescaped. */
  predicate IsMeta(b: Byte)
  {
    b == 0x2E || b == 0x5E || b == 0x24 || b == 0x2A || b == 0x2B || b == 0x3F || b == 0x7B ||
    b == 0x7D || b == 0x5B || b == 0x5D || b == 0x5C || b == 0x7C || b == 0x28 || b == 0x29
  }

  /** ASCII letters and digits: after a backslash they form a class, an anchor or a back-reference. */
  predicate IsAlnum(b: Byte)
  {
    0x30 <= b <= 0x39 || 0x41 <= b <= 0x5A || 0x61 <= b <= 0x7A
  }

  /**
   * Reads one alternative made only of literal atoms — a byte that is not a
   * meta byte, or a backslash followed by a byte that is not a letter or digit —
   * up to the first unescaped `|` or `)`, or the end. Returns the literal bytes
   * and the rest of the pattern; None for anything outside this fragment.
   */
  function ParseLiteral(p: seq<Byte>): (r: Option<(seq<Byte>, seq<Byte>)>)
    ensures r.Some? ==> |r.value.1| <= |p|
    ensures r.Some? ==> r.value.1 == [] || r.value.1[0] == Pipe || r.value.1[0] == RightParen
  {
    if p == [] then Some(([], []))
    else if p[0] == Pipe || p[0] == RightParen then Some(([], p))
    else if p[0] == Backslash then
      if |p| >= 2 && !IsAlnum(p[1]) then
        var r' := ParseLiteral(p[2..]);
        if r'.None? then None else Some(([p[1]] + r'.value.0, r'.value.1))
      else None
    else if IsMeta(p[0]) then None
    else
      var r' := ParseLiteral(p[1..]);
      if r'.None? then None else Some(([p[0]] + r'.value.0, r'.value.1))
  }

  /** Reading one alternative consumes a prefix of the pattern: the rest is a suffix, and the literal is no longer than what was consumed. */
  lemma {:induction false} ParseLiteralSplits(p: seq<Byte>)
    ensures ParseLiteral(p).Some? ==>
      var (lit, rest) := ParseLiteral(p).value;
      rest == p[|p| - |rest|..] && |lit| <= |p| - |rest|
  {
    if p != [] && p[0] != Pipe && p[0] != RightParen {
      if p[0] == Backslash {
        if |p| >= 2 && !IsAlnum(p[1]) {
          ParseLiteralSplits(p[2..]);
        }
      } else if !IsMeta(p[0]) {
        ParseLiteralSplits(p[1..]);
      }
    }
  }

  /**
   * Reads `a1|a2|...|an)` to the end of the pattern into the list of
   * alternatives: at least one, the pattern ends in `)`, and the alternatives
   * with their separators fit in the pattern.
   */
  function ParseAlternatives(p: seq<Byte>): (r: Option<seq<seq<Byte>>>)
    ensures r.Some? ==> |r.value| >= 1 && p != [] && p[|p| - 1] == RightParen
    ensures r.Some? ==> TotalLength(r.value) + |r.value| <= |p|
    decreases |p|
  {
    ParseLiteralSplits(p);
    match ParseLiteral(p)
    case None => None
    case Some((lit, rest)) =>
      if rest == [] then None
      else if rest[0] == Pipe then
        match ParseAlternatives(rest[1..])
        case None => None
        case Some(alts) => Some([lit] + alts)
      else if rest == [RightParen] then Some([lit])
      else None
  }

  /** Reads a whole pattern `(a1|...|an)` of literal alternatives: at least one, inside a pair of parentheses. */
  function ParseGroup(p: seq<Byte>): (r: Option<seq<seq<Byte>>>)
    ensures r.Some? ==> |p| >= 2 && p[0] == LeftParen && p[|p| - 1] == RightParen
    ensures r.Some? ==> |r.value| >= 1 && TotalLength(r.value) + |r.value| <= |p| - 1
  {
    if p != [] && p[0] == LeftParen then ParseAlternatives(p[1..]) else None
  }

  /** A byte that is not a meta byte is read as itself. */
  lemma {:induction false} ParsePlainByte(x: Byte, t: seq<Byte>, lit: seq<Byte>, rest: seq<Byte>)
    requires !IsMeta(x)
    requires ParseLiteral(t) == Some((lit, rest))
    ensures ParseLiteral([x] + t) == Some(([x] + lit, rest))
  {
    assert ([x] + t)[1..] == t;
  }

  lemma {:induction false} ConsConcat(b: seq<Byte>, t: seq<Byte>)
    requires b != []
    ensures [b[0]] + (b[1..] + t) == b + t
  {
    assert b == [b[0]] + b[1..];
  }

  /** Bytes of a multi-byte UTF-8 sequence are read as literal bytes one by one. */
  lemma {:induction false} ParseHighBytes(b: seq<Byte>, t: seq<Byte>, lit: seq<Byte>, rest: seq<Byte>)
    requires forall i :: 0 <= i < |b| ==> b[i] >= 0x80
    requires ParseLiteral(t) == Some((lit, rest))
    ensures ParseLiteral(b + t) == Some((b + lit, rest))
  {
    if b == [] {
      assert b + t == t && b + lit == lit;
    } else {
      var x, b' := b[0], b[1..];
      assert !IsMeta(x);
      ParseHighBytes(b', t, lit, rest);
      ParsePlainByte(x, b' + t, b' + lit, rest);
      ConsConcat(b, t);
      ConsConcat(b, lit);
    }
  }

  /** One escaped character, encoded, reads back as the character's bytes. */
  lemma {:induction false} ParseEscapedChar(c: char, tail: seq<Byte>, lit: seq<Byte>, rest: seq<Byte>)
    requires ParseLiteral(tail) == Some((lit, rest))
    ensures ParseLiteral(Encode(EscapeChar(c)) + tail) == Some((EncodeChar(c) + lit, rest))
  {
    var p := Encode(EscapeChar(c)) + tail;
    if IsEscaped(c) {
      var e := EscapeChar(c);
      assert e[0] == '\\' && e[1..] == [c] && e[1..][1..] == [];
      assert Encode(e[1..]) == EncodeChar(c);
      assert Encode(e) == EncodeChar('\\') + EncodeChar(c);
      assert Encode(EscapeChar(c)) == [Backslash, c as int];
      assert p[2..] == tail;
    } else if c as int < 0x80 {
      assert Encode(EscapeChar(c)) == [c as int];
      ParsePlainByte(c as int, tail, lit, rest);
    } else {
      assert Encode(EscapeChar(c)) == EncodeChar(c);
      ParseHighBytes(EncodeChar(c), tail, lit, rest);
    }
  }

  /** The escaped, encoded form of a string reads back as the string's bytes, stopping at `|` or `)`. */
  lemma {:induction false} ParseEscaped(s: string, t: seq<Byte>)
    requires t == [] || t[0] == Pipe || t[0] == RightParen
    ensures ParseLiteral(Encode(Escape(s)) + t) == Some((Encode(s), t))
  {
    if s == [] {
      assert Encode(Escape(s)) + t == t;
    } else {
      var head, more := Encode(EscapeChar(s[0])), Encode(Escape(s[1..]));
      EncodeConcat(EscapeChar(s[0]), Escape(s[1..]));
      ParseEscaped(s[1..], t);
      ParseEscapedChar(s[0], more + t, Encode(s[1..]), t);
      ConcatAssoc(head, more, t);
    }
  }

  /** Encoding `a|rest)` puts the pipe byte between the encoded first part and the rest. */
  lemma {:induction false} EncodeJoinStep(parts: seq<string>)
    requires |parts| >= 2
    ensures Encode(Join(parts)) + [RightParen] ==
      Encode(parts[0]) + ([Pipe] + (Encode(Join(parts[1..])) + [RightParen]))
  {
    var a, j := Encode(parts[0]), Encode(Join(parts[1..]));
    assert Join(parts) == (parts[0] + "|") + Join(parts[1..]);
    EncodeConcat(parts[0] + "|", Join(parts[1..]));
    EncodeConcat(parts[0], "|");
    assert Encode("|") == [Pipe];
    assert Encode(Join(parts)) == (a + [Pipe]) + j;
    assert ((a + [Pipe]) + j) + [RightParen] == a + ([Pipe] + (j + [RightParen]));
  }

  /** An alternative followed by `|` and further alternatives reads as one more alternative in front. */
  lemma {:induction false} ParseAlternativesStep(p: seq<Byte>, lit: seq<Byte>, rest: seq<Byte>, alts: seq<seq<Byte>>)
    requires ParseLiteral(p) == Some((lit, [Pipe] + rest))
    requires ParseAlternatives(rest) == Some(alts)
    ensures ParseAlternatives(p) == Some([lit] + alts)
  {
    assert ([Pipe] + rest)[1..] == rest;
  }

  /** The joined alternatives followed by `)` read back as the list of the strings' bytes. */
  lemma {:induction false} ParseJoined(strings: seq<string>)
    requires strings != []
    ensures ParseAlternatives(Encode(Join(EscapeAll(strings))) + [RightParen]) == Some(EncodeAll(strings))
  {
    var parts := EscapeAll(strings);
    if |strings| == 1 {
      assert Join(parts) == Escape(strings[0]);
      ParseEscaped(strings[0], [RightParen]);
      assert EncodeAll(strings) == [Encode(strings[0])];
    } else {
      var rest := Encode(Join(parts[1..])) + [RightParen];
      assert parts[1..] == EscapeAll(strings[1..]);
      EncodeJoinStep(parts);
      ParseEscaped(strings[0], [Pipe] + rest);
      ParseJoined(strings[1..]);
      ParseAlternativesStep(Encode(Join(parts)) + [RightParen], Encode(strings[0]), rest, EncodeAll(strings[1..]));
      assert EncodeAll(strings) == [Encode(strings[0])] + EncodeAll(strings[1..]);
    }
  }

  /**
   * Literal escaping: the encoded literal-mode pattern reads back as exactly
   * the UTF-8 bytes of each removal string, in the order given, so every
   * special character in a string matches only itself.
   */
  lemma {:induction false} LiteralPatternRoundTrip(strings: seq<string>)
    requires strings != []
    ensures ParseGroup(Encode(LiteralPattern(strings))) == Some(EncodeAll(strings))
  {
    var body := Join(EscapeAll(strings));
    EncodeConcat("(" + body, ")");
    EncodeConcat("(", body);
    assert Encode("(") == [LeftParen];
    assert Encode(")") == [RightParen];
    var p := Encode(LiteralPattern(strings));
    assert p == [LeftParen] + (Encode(body) + [RightParen]);
    assert p[1..] == Encode(body) + [RightParen];
    ParseJoined(strings);
  }

  /** A dot is escaped, so the pattern for `a.b` is `(a\.b)` and stands for the three bytes a . b. */
  lemma DotIsLiteral()
    ensures LiteralPattern(["a.b"]) == "(a\\.b)"
    ensures ParseGroup(Encode(LiteralPattern(["a.b"]))) == Some([[0x61, 0x2E, 0x62]])
  {
    assert Escape("a.b") == "a\\.b";
    assert EscapeAll(["a.b"]) == ["a\\.b"];
    assert Join(["a\\.b"]) == "a\\.b";
    assert LiteralPattern(["a.b"]) == "(" + "a\\.b" + ")";
    assert "(" + "a\\.b" + ")" == "(a\\.b)";
    LiteralPatternRoundTrip(["a.b"]);
    EncodeAscii3('a', '.', 'b');
    assert EncodeAll(["a.b"]) == [Encode("a.b")];
  }
}
