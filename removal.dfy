/**
 * `re.sub(pattern, b'', content)` for a pattern that is a group of literal
 * byte alternatives (pdfremover.py:63). The regex engine scans left to right;
 * at each position it tries the alternatives in the order listed and takes the
 * first one that matches there; a match is deleted and the scan resumes right
 * after it; where no alternative matches, one byte is kept and the scan moves
 * on by one.
 */
module Removal {
  import opened Wrappers
  import opened Utf8

  predicate StartsWith(s: seq<Byte>, p: seq<Byte>)
  {
    |p| <= |s| && s[..|p|] == p
  }

  /** Empty alternatives are not modelled: every removal string has at least one byte. */
  predicate NonEmptyPatterns(pats: seq<seq<Byte>>)
  {
    forall k :: 0 <= k < |pats| ==> |pats[k]| > 0
  }

  /** The alternative the engine takes at the start of s: the first listed one that matches there. */
  function FirstMatch(s: seq<Byte>, pats: seq<seq<Byte>>): (r: Option<nat>)
    ensures r.Some? ==> r.value < |pats| && StartsWith(s, pats[r.value])
  {
    if pats == [] then None
    else if StartsWith(s, pats[0]) then Some(0)
    else
      var r' := FirstMatch(s, pats[1..]);
      if r'.None? then None else Some(r'.value + 1)
  }

  /** No alternative listed before the chosen one matches, and there is no choice exactly when none matches. */
  lemma {:induction false} FirstMatchIsFirst(s: seq<Byte>, pats: seq<seq<Byte>>)
    ensures FirstMatch(s, pats).Some? ==>
      forall j :: 0 <= j < FirstMatch(s, pats).value ==> !StartsWith(s, pats[j])
    ensures FirstMatch(s, pats).None? <==> forall j :: 0 <= j < |pats| ==> !StartsWith(s, pats[j])
  {
    if pats != [] && !StartsWith(s, pats[0]) {
      FirstMatchIsFirst(s, pats[1..]);
      forall j | 1 <= j < |pats| ensures pats[j] == pats[1..][j - 1] {
      }
    }
  }

  /** No alternative occurs anywhere in s. */
  predicate NoOccurrence(s: seq<Byte>, pats: seq<seq<Byte>>)
  {
    forall j, k :: 0 <= j <= |s| && 0 <= k < |pats| ==> !StartsWith(s[j..], pats[k])
  }

  /** The content after the substitution. */
  function Remove(s: seq<Byte>, pats: seq<seq<Byte>>): (r: seq<Byte>)
    requires NonEmptyPatterns(pats)
    ensures |r| <= |s|
    decreases |s|
  {
    if s == [] then []
    else
      match FirstMatch(s, pats)
      case Some(k) => Remove(s[|pats[k]|..], pats)
      case None => [s[0]] + Remove(s[1..], pats)
  }

  /** One step of the scan: a byte kept, or an occurrence of alternative `index` deleted. */
  datatype Piece = Kept(b: Byte) | Cut(index: nat)

  predicate PiecesFit(ps: seq<Piece>, pats: seq<seq<Byte>>)
  {
    forall i :: 0 <= i < |ps| ==> ps[i].Cut? ==> ps[i].index < |pats|
  }

  /** The input bytes a piece covers. */
  function PieceBytes(p: Piece, pats: seq<seq<Byte>>): seq<Byte>
    requires p.Cut? ==> p.index < |pats|
  {
    match p
    case Kept(b) => [b]
    case Cut(k) => pats[k]
  }

  /** The input a sequence of pieces covers. */
  function Source(ps: seq<Piece>, pats: seq<seq<Byte>>): seq<Byte>
    requires PiecesFit(ps, pats)
  {
    if ps == [] then [] else PieceBytes(ps[0], pats) + Source(ps[1..], pats)
  }

  /** The bytes the pieces keep, in their original order. */
  function KeptBytes(ps: seq<Piece>): seq<Byte>
  {
    if ps == [] then []
    else (if ps[0].Kept? then [ps[0].b] else []) + KeptBytes(ps[1..])
  }

  /** The total length of the deleted occurrences. */
  function CutLength(ps: seq<Piece>, pats: seq<seq<Byte>>): nat
    requires PiecesFit(ps, pats)
  {
    if ps == [] then 0
    else (if ps[0].Cut? then |pats[ps[0].index]| else 0) + CutLength(ps[1..], pats)
  }

  /** The decisions the engine makes while it scans s (what `re.finditer` would report, plus kept bytes). */
  function Scan(s: seq<Byte>, pats: seq<seq<Byte>>): (ps: seq<Piece>)
    requires NonEmptyPatterns(pats)
    ensures PiecesFit(ps, pats)
    decreases |s|
  {
    if s == [] then []
    else
      match FirstMatch(s, pats)
      case Some(k) => [Cut(k)] + Scan(s[|pats[k]|..], pats)
      case None => [Kept(s[0])] + Scan(s[1..], pats)
  }

  /** A piece is the one the engine chooses where the rest of the input begins. */
  predicate Decides(rest: seq<Byte>, pats: seq<seq<Byte>>, p: Piece)
  {
    match p
    case Kept(_) => FirstMatch(rest, pats).None?
    case Cut(k) => FirstMatch(rest, pats) == Some(k)
  }

  lemma {:induction false} PrefixFits(ps: seq<Piece>, pats: seq<seq<Byte>>, i: nat)
    requires PiecesFit(ps, pats) && i <= |ps|
    ensures PiecesFit(ps[..i], pats)
  {
    forall j | 0 <= j < i ensures ps[..i][j].Cut? ==> ps[..i][j].index < |pats| {
      assert ps[..i][j] == ps[j];
    }
  }

  /** Piece i is the engine's choice at the point of s where the pieces before it end. */
  ghost predicate DecidedAt(s: seq<Byte>, pats: seq<seq<Byte>>, ps: seq<Piece>, i: nat)
    requires PiecesFit(ps, pats) && i < |ps|
  {
    PrefixFits(ps, pats, i);
    var offset := |Source(ps[..i], pats)|;
    offset <= |s| && Decides(s[offset..], pats, ps[i])
  }

  /**
   * Leftmost-first non-overlapping matching, stated without recursion: the
   * pieces cover s exactly, in order; every kept byte sits where no
   * alternative matches; every deleted occurrence is of the first listed
   * alternative that matches where it starts.
   */
  ghost predicate LeftmostFirst(s: seq<Byte>, pats: seq<seq<Byte>>, ps: seq<Piece>)
  {
    PiecesFit(ps, pats) && Source(ps, pats) == s &&
    forall i :: 0 <= i < |ps| ==> DecidedAt(s, pats, ps, i)
  }

  lemma {:induction false} SourceConcat(a: seq<Piece>, b: seq<Piece>, pats: seq<seq<Byte>>)
    requires PiecesFit(a, pats) && PiecesFit(b, pats)
    ensures PiecesFit(a + b, pats)
    ensures Source(a + b, pats) == Source(a, pats) + Source(b, pats)
  {
    forall i | 0 <= i < |a + b| ensures (a + b)[i].Cut? ==> (a + b)[i].index < |pats| {
      assert (a + b)[i] == if i < |a| then a[i] else b[i - |a|];
    }
    if a == [] {
      assert a + b == b;
    } else {
      assert (a + b)[0] == a[0] && (a + b)[1..] == a[1..] + b;
      SourceConcat(a[1..], b, pats);
      ConcatAssoc(PieceBytes(a[0], pats), Source(a[1..], pats), Source(b, pats));
    }
  }

  /** The covered input splits into the kept bytes and the deleted occurrences. */
  lemma {:induction false} SourceLength(ps: seq<Piece>, pats: seq<seq<Byte>>)
    requires PiecesFit(ps, pats)
    ensures |Source(ps, pats)| == |KeptBytes(ps)| + CutLength(ps, pats)
  {
    if ps != [] {
      SourceLength(ps[1..], pats);
    }
  }

  lemma {:induction false} ConsFits(p: Piece, rest: seq<Piece>, pats: seq<seq<Byte>>)
    requires p.Cut? ==> p.index < |pats|
    requires PiecesFit(rest, pats)
    ensures PiecesFit([p] + rest, pats)
    ensures Source([p] + rest, pats) == PieceBytes(p, pats) + Source(rest, pats)
  {
    assert ([p] + rest)[1..] == rest;
  }

  /** The offset of piece i + 1 of [p] + rest is the length of p plus the offset of piece i of rest. */
  lemma {:induction false} ConsOffset(p: Piece, rest: seq<Piece>, pats: seq<seq<Byte>>, i: nat)
    requires p.Cut? ==> p.index < |pats|
    requires PiecesFit(rest, pats) && i <= |rest|
    ensures PiecesFit(rest[..i], pats) && PiecesFit(([p] + rest)[..i + 1], pats)
    ensures |Source(([p] + rest)[..i + 1], pats)| == |PieceBytes(p, pats)| + |Source(rest[..i], pats)|
  {
    PrefixFits(rest, pats, i);
    assert ([p] + rest)[..i + 1] == [p] + rest[..i];
    ConsFits(p, rest[..i], pats);
  }

  /** The first piece is decided at the start of s. */
  lemma {:induction false} DecidedAtHead(s: seq<Byte>, pats: seq<seq<Byte>>, p: Piece, rest: seq<Piece>)
    requires p.Cut? ==> p.index < |pats|
    requires PiecesFit(rest, pats)
    ensures PiecesFit([p] + rest, pats)
    ensures DecidedAt(s, pats, [p] + rest, 0) <==> Decides(s, pats, p)
  {
    ConsFits(p, rest, pats);
    assert ([p] + rest)[..0] == [] && s[0..] == s;
  }

  /** Piece i + 1 of [p] + rest is decided in s exactly where piece i of rest is decided in the input after p. */
  lemma {:induction false} DecidedAtCons(s: seq<Byte>, pats: seq<seq<Byte>>, p: Piece, rest: seq<Piece>, i: nat)
    requires p.Cut? ==> p.index < |pats|
    requires StartsWith(s, PieceBytes(p, pats))
    requires PiecesFit(rest, pats) && i < |rest|
    ensures PiecesFit([p] + rest, pats)
    ensures DecidedAt(s, pats, [p] + rest, i + 1) <==> DecidedAt(s[|PieceBytes(p, pats)|..], pats, rest, i)
  {
    ConsFits(p, rest, pats);
    ConsOffset(p, rest, pats, i);
    var n := |PieceBytes(p, pats)|;
    var m := |Source(rest[..i], pats)|;
    assert n + m <= |s| ==> s[n..][m..] == s[n + m..];
    assert ([p] + rest)[i + 1] == rest[i];
  }

  /** A leftmost-first reading of s that begins with p continues with one of the input after p. */
  lemma {:induction false} LeftmostFirstTail(s: seq<Byte>, pats: seq<seq<Byte>>, p: Piece, rest: seq<Piece>)
    requires p.Cut? ==> p.index < |pats|
    requires PiecesFit(rest, pats)
    requires LeftmostFirst(s, pats, [p] + rest)
    ensures StartsWith(s, PieceBytes(p, pats)) && Decides(s, pats, p)
    ensures LeftmostFirst(s[|PieceBytes(p, pats)|..], pats, rest)
  {
    var n := |PieceBytes(p, pats)|;
    ConsFits(p, rest, pats);
    assert s[..n] == PieceBytes(p, pats);
    DecidedAtHead(s, pats, p, rest);
    forall i | 0 <= i < |rest| ensures DecidedAt(s[n..], pats, rest, i) {
      DecidedAtCons(s, pats, p, rest, i);
    }
  }

  /** A piece the engine would choose, followed by a leftmost-first reading of what comes after it. */
  lemma {:induction false} LeftmostFirstPrepend(s: seq<Byte>, pats: seq<seq<Byte>>, p: Piece, rest: seq<Piece>)
    requires p.Cut? ==> p.index < |pats|
    requires StartsWith(s, PieceBytes(p, pats)) && Decides(s, pats, p)
    requires LeftmostFirst(s[|PieceBytes(p, pats)|..], pats, rest)
    ensures LeftmostFirst(s, pats, [p] + rest)
  {
    var n := |PieceBytes(p, pats)|;
    ConsFits(p, rest, pats);
    assert s == PieceBytes(p, pats) + s[n..];
    forall i | 0 <= i < |rest| + 1 ensures DecidedAt(s, pats, [p] + rest, i) {
      if i == 0 {
        DecidedAtHead(s, pats, p, rest);
      } else {
        DecidedAtCons(s, pats, p, rest, i - 1);
      }
    }
  }

  /** The engine's own scan satisfies the leftmost-first description. */
  lemma {:induction false} ScanIsLeftmostFirst(s: seq<Byte>, pats: seq<seq<Byte>>)
    requires NonEmptyPatterns(pats)
    ensures LeftmostFirst(s, pats, Scan(s, pats))
    decreases |s|
  {
    if s != [] {
      match FirstMatch(s, pats)
      case Some(k) =>
        ScanIsLeftmostFirst(s[|pats[k]|..], pats);
        assert s[0..] == s;
        LeftmostFirstPrepend(s, pats, Cut(k), Scan(s[|pats[k]|..], pats));
      case None =>
        ScanIsLeftmostFirst(s[1..], pats);
        LeftmostFirstPrepend(s, pats, Kept(s[0]), Scan(s[1..], pats));
    }
  }

  /** The leftmost-first description has exactly one solution: the engine's scan. */
  lemma {:induction false} LeftmostFirstUnique(s: seq<Byte>, pats: seq<seq<Byte>>, ps: seq<Piece>)
    requires NonEmptyPatterns(pats)
    requires LeftmostFirst(s, pats, ps)
    ensures ps == Scan(s, pats)
    decreases |ps|
  {
    if ps != [] {
      var p, rest := ps[0], ps[1..];
      assert ps == [p] + rest;
      assert PiecesFit(rest, pats) by {
        forall i | 0 <= i < |rest| ensures rest[i].Cut? ==> rest[i].index < |pats| {
          assert rest[i] == ps[i + 1];
        }
      }
      assert ps[0] == ps[..1][0];
      LeftmostFirstTail(s, pats, p, rest);
      var n := |PieceBytes(p, pats)|;
      assert s != [] by {
        assert n >= 1;
      }
      LeftmostFirstUnique(s[n..], pats, rest);
    }
  }

  /** The scan's kept bytes are the substitution's result. */
  lemma {:induction false} ScanKeeps(s: seq<Byte>, pats: seq<seq<Byte>>)
    requires NonEmptyPatterns(pats)
    ensures KeptBytes(Scan(s, pats)) == Remove(s, pats)
    decreases |s|
  {
    if s != [] {
      match FirstMatch(s, pats)
      case Some(k) =>
        ScanKeeps(s[|pats[k]|..], pats);
        assert Scan(s, pats)[1..] == Scan(s[|pats[k]|..], pats);
      case None =>
        ScanKeeps(s[1..], pats);
        assert Scan(s, pats)[1..] == Scan(s[1..], pats);
    }
  }

  /**
   * The result is a deletion: it is the input with a sequence of
   * non-overlapping, leftmost-first occurrences taken out, the kept bytes in
   * their original order, and it is shorter by exactly the deleted length.
   */
  lemma {:induction false} RemoveIsDeletion(s: seq<Byte>, pats: seq<seq<Byte>>)
    requires NonEmptyPatterns(pats)
    ensures LeftmostFirst(s, pats, Scan(s, pats))
    ensures Source(Scan(s, pats), pats) == s
    ensures Remove(s, pats) == KeptBytes(Scan(s, pats))
    ensures |Remove(s, pats)| == |s| - CutLength(Scan(s, pats), pats)
  {
    ScanIsLeftmostFirst(s, pats);
    ScanKeeps(s, pats);
    SourceLength(Scan(s, pats), pats);
  }

  /** Any reading of s as leftmost-first matches keeps exactly the bytes the substitution keeps. */
  lemma {:induction false} LeftmostFirstKeeps(s: seq<Byte>, pats: seq<seq<Byte>>, ps: seq<Piece>)
    requires NonEmptyPatterns(pats)
    requires LeftmostFirst(s, pats, ps)
    ensures KeptBytes(ps) == Remove(s, pats)
  {
    LeftmostFirstUnique(s, pats, ps);
    ScanKeeps(s, pats);
  }

  /** Where no alternative matches at position j, byte j is kept. */
  lemma {:induction false} RemoveKeepsAt(s: seq<Byte>, pats: seq<seq<Byte>>, j: nat)
    requires NonEmptyPatterns(pats)
    requires j < |s| && FirstMatch(s[j..], pats).None?
    ensures Remove(s[j..], pats) == [s[j]] + Remove(s[j + 1..], pats)
  {
    assert s[j..][1..] == s[j + 1..];
  }

  /** Where alternative k is chosen at position i, the scan from i goes on after that occurrence. */
  lemma {:induction false} RemoveCutsAt(s: seq<Byte>, pats: seq<seq<Byte>>, i: nat, k: nat)
    requires NonEmptyPatterns(pats)
    requires i <= |s| && FirstMatch(s[i..], pats) == Some(k)
    ensures i + |pats[k]| <= |s|
    ensures Remove(s[i..], pats) == Remove(s[i + |pats[k]|..], pats)
  {
    assert s[i..][|pats[k]|..] == s[i + |pats[k]|..];
  }

  lemma {:induction false} SliceCons(s: seq<Byte>, j: nat, i: nat, after: seq<Byte>)
    requires j < i <= |s|
    ensures [s[j]] + (s[j + 1..i] + after) == s[j..i] + after
  {
    assert s[j..i] == [s[j]] + s[j + 1..i];
  }

  /** The scan from position j keeps s[j..i] when nothing matches between j and i. */
  lemma {:induction false} RemoveFrom(s: seq<Byte>, pats: seq<seq<Byte>>, i: nat, k: nat, j: nat)
    requires NonEmptyPatterns(pats)
    requires j <= i <= |s|
    requires forall j' :: j <= j' < i ==> FirstMatch(s[j'..], pats).None?
    requires FirstMatch(s[i..], pats) == Some(k)
    ensures i + |pats[k]| <= |s|
    ensures Remove(s[j..], pats) == s[j..i] + Remove(s[i + |pats[k]|..], pats)
    decreases i - j
  {
    RemoveCutsAt(s, pats, i, k);
    if j == i {
      assert s[i..i] == [];
    } else {
      RemoveFrom(s, pats, i, k, j + 1);
      RemoveKeepsAt(s, pats, j);
      SliceCons(s, j, i, Remove(s[i + |pats[k]|..], pats));
    }
  }

  /**
   * Leftmost, then first listed: when no alternative occurs before position
   * i and alternative k is the first that matches at i, the substitution keeps
   * s[..i], deletes that occurrence and continues after it.
   */
  lemma {:induction false} RemoveAtLeftmost(s: seq<Byte>, pats: seq<seq<Byte>>, i: nat, k: nat)
    requires NonEmptyPatterns(pats)
    requires i <= |s|
    requires forall j :: 0 <= j < i ==> FirstMatch(s[j..], pats).None?
    requires FirstMatch(s[i..], pats) == Some(k)
    ensures i + |pats[k]| <= |s|
    ensures Remove(s, pats) == s[..i] + Remove(s[i + |pats[k]|..], pats)
  {
    RemoveFrom(s, pats, i, k, 0);
    assert s[0..] == s && s[0..i] == s[..i];
  }

  /** No occurrence, no change. */
  lemma {:induction false} NoOccurrenceUnchanged(s: seq<Byte>, pats: seq<seq<Byte>>)
    requires NonEmptyPatterns(pats)
    requires NoOccurrence(s, pats)
    ensures Remove(s, pats) == s
    decreases |s|
  {
    if s != [] {
      assert s[0..] == s;
      FirstMatchIsFirst(s, pats);
      assert NoOccurrence(s[1..], pats) by {
        forall j, k | 0 <= j <= |s[1..]| && 0 <= k < |pats| ensures !StartsWith(s[1..][j..], pats[k]) {
          assert s[1..][j..] == s[j + 1..];
        }
      }
      NoOccurrenceUnchanged(s[1..], pats);
    }
  }

  /** An occurrence anywhere makes the result strictly shorter. */
  lemma {:induction false} OccurrenceShortens(s: seq<Byte>, pats: seq<seq<Byte>>, j: nat, k: nat)
    requires NonEmptyPatterns(pats)
    requires j <= |s| && k < |pats| && StartsWith(s[j..], pats[k])
    ensures |Remove(s, pats)| < |s|
    decreases |s|
  {
    assert s[0..] == s;
    assert |pats[k]| > 0;
    FirstMatchIsFirst(s, pats);
    if FirstMatch(s, pats).None? {
      assert j > 0;
      assert s[1..][j - 1..] == s[j..];
      OccurrenceShortens(s[1..], pats, j - 1, k);
    }
  }

  /** The content is left byte-for-byte unchanged exactly when no removal string occurs in it. */
  lemma {:induction false} UnchangedIff(s: seq<Byte>, pats: seq<seq<Byte>>)
    requires NonEmptyPatterns(pats)
    ensures Remove(s, pats) == s <==> NoOccurrence(s, pats)
  {
    if NoOccurrence(s, pats) {
      NoOccurrenceUnchanged(s, pats);
    } else {
      var j, k :| 0 <= j <= |s| && 0 <= k < |pats| && StartsWith(s[j..], pats[k]);
      OccurrenceShortens(s, pats, j, k);
    }
  }

  // Bytes used in the examples below: a = 0x61, b = 0x62, c = 0x63, x = 0x78, and the dot 0x2E.

  /** At one position the earliest listed alternative wins: ["ab","abc"] on abc leaves c, ["abc","ab"] leaves nothing. */
  lemma FirstListedWins()
    ensures Remove([0x61, 0x62, 0x63], [[0x61, 0x62], [0x61, 0x62, 0x63]]) == [0x63]
    ensures Remove([0x61, 0x62, 0x63], [[0x61, 0x62, 0x63], [0x61, 0x62]]) == []
  {
    var s: seq<Byte> := [0x61, 0x62, 0x63];
    assert s[..2] == [0x61, 0x62] && s[2..] == [0x63];
    assert FirstMatch(s, [[0x61, 0x62], [0x61, 0x62, 0x63]]) == Some(0);
    assert FirstMatch([0x63], [[0x61, 0x62], [0x61, 0x62, 0x63]]) == None;
    assert [0x63][1..] == [];
    assert s[..3] == s && s[3..] == [];
    assert FirstMatch(s, [[0x61, 0x62, 0x63], [0x61, 0x62]]) == Some(0);
  }

  /** Matches do not overlap and the scan resumes after each one: ["aa"] on aaa leaves a. */
  lemma ResumesAfterMatch()
    ensures Remove([0x61, 0x61, 0x61], [[0x61, 0x61]]) == [0x61]
  {
    var s: seq<Byte> := [0x61, 0x61, 0x61];
    assert s[..2] == [0x61, 0x61] && s[2..] == [0x61];
    assert FirstMatch(s, [[0x61, 0x61]]) == Some(0);
    assert FirstMatch([0x61], [[0x61, 0x61]]) == None;
    assert [0x61][1..] == [];
  }

  /** A deletion can create a new occurrence, so a second pass may remove more: ["ab"] on aabb gives ab, then nothing. */
  lemma NotIdempotent()
    ensures Remove([0x61, 0x61, 0x62, 0x62], [[0x61, 0x62]]) == [0x61, 0x62]
    ensures Remove(Remove([0x61, 0x61, 0x62, 0x62], [[0x61, 0x62]]), [[0x61, 0x62]]) == []
    ensures exists s :: Remove(Remove(s, [[0x61, 0x62]]), [[0x61, 0x62]]) != Remove(s, [[0x61, 0x62]])
  {
    var pats: seq<seq<Byte>> := [[0x61, 0x62]];
    var s: seq<Byte> := [0x61, 0x61, 0x62, 0x62];
    assert s[..2] == [0x61, 0x61];
    assert FirstMatch(s, pats) == None;
    assert s[1..] == [0x61, 0x62, 0x62];
    assert s[1..][..2] == [0x61, 0x62];
    assert FirstMatch(s[1..], pats) == Some(0);
    assert s[1..][2..] == [0x62];
    assert FirstMatch([0x62], pats) == None;
    assert [0x62][1..] == [];
    assert Remove(s, pats) == [0x61, 0x62];
    var ab: seq<Byte> := [0x61, 0x62];
    assert ab[..2] == ab && ab[2..] == [];
    assert FirstMatch(ab, pats) == Some(0);
    assert Remove(ab, pats) == [];
  }

  /** With the escaped dot the alternative is the three bytes a . b: it removes a.b and leaves axb alone. */
  lemma DotMatchesOnlyDot()
    ensures Remove([0x61, 0x2E, 0x62], [[0x61, 0x2E, 0x62]]) == []
    ensures Remove([0x61, 0x78, 0x62], [[0x61, 0x2E, 0x62]]) == [0x61, 0x78, 0x62]
  {
    var pats: seq<seq<Byte>> := [[0x61, 0x2E, 0x62]];
    var s: seq<Byte> := [0x61, 0x2E, 0x62];
    assert s[..3] == s && s[3..] == [];
    assert FirstMatch(s, pats) == Some(0);
    var t: seq<Byte> := [0x61, 0x78, 0x62];
    assert NoOccurrence(t, pats) by {
      forall j, k | 0 <= j <= |t| && 0 <= k < |pats| ensures !StartsWith(t[j..], pats[k]) {
        assert |t[j..]| < 3 || t[j..][..3] == t;
      }
    }
    NoOccurrenceUnchanged(t, pats);
  }

  /** r is what the scan has produced from s[..i]: with the scan of s[i..] after it, it is the whole result. */
  ghost predicate Accumulated(s: seq<Byte>, pats: seq<seq<Byte>>, i: nat, r: seq<Byte>)
    requires NonEmptyPatterns(pats) && i <= |s|
  {
    r + Remove(s[i..], pats) == Remove(s, pats)
  }

  /** One kept byte extends the output accumulated so far. */
  lemma {:induction false} KeepStep(s: seq<Byte>, pats: seq<seq<Byte>>, i: nat, r: seq<Byte>)
    requires NonEmptyPatterns(pats)
    requires i < |s| && FirstMatch(s[i..], pats).None?
    requires Accumulated(s, pats, i, r)
    ensures Accumulated(s, pats, i + 1, r + [s[i]])
  {
    RemoveKeepsAt(s, pats, i);
    ConcatAssoc(r, [s[i]], Remove(s[i + 1..], pats));
  }

  /** A deleted occurrence leaves the output accumulated so far as it is. */
  lemma {:induction false} CutStep(s: seq<Byte>, pats: seq<seq<Byte>>, i: nat, k: nat, r: seq<Byte>)
    requires NonEmptyPatterns(pats)
    requires i <= |s| && FirstMatch(s[i..], pats) == Some(k)
    requires Accumulated(s, pats, i, r)
    ensures i + |pats[k]| <= |s|
    ensures Accumulated(s, pats, i + |pats[k]|, r)
  {
    RemoveCutsAt(s, pats, i, k);
  }

  /** Before the scan nothing has been produced; after it, what has been produced is the result. */
  lemma {:induction false} AccumulatedEnds(s: seq<Byte>, pats: seq<seq<Byte>>, r: seq<Byte>)
    requires NonEmptyPatterns(pats)
    ensures Accumulated(s, pats, 0, [])
    ensures Accumulated(s, pats, |s|, r) ==> r == Remove(s, pats)
  {
    assert s[0..] == s && s[|s|..] == [];
  }

  /**
   * The engine's loop: scan the content once, deleting the first listed
   * alternative that matches at each position and copying every other byte.
   */
  method RemoveAll(content: seq<Byte>, pats: seq<seq<Byte>>) returns (r: seq<Byte>)
    requires NonEmptyPatterns(pats)
    ensures r == Remove(content, pats)
  {
    AccumulatedEnds(content, pats, []);
    r := [];
    var i := 0;
    while i < |content|
      invariant 0 <= i <= |content|
      invariant Accumulated(content, pats, i, r)
      decreases |content| - i
    {
      var m := FirstMatch(content[i..], pats);
      if m.Some? {
        CutStep(content, pats, i, m.value, r);
        i := i + |pats[m.value]|;
      } else {
        KeepStep(content, pats, i, r);
        r := r + [content[i]];
        i := i + 1;
      }
    }
    AccumulatedEnds(content, pats, r);
  }
}
