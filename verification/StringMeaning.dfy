/** What a plain string matches as a pattern (regex.c), in its tree and in its code. */
module StringMeaning {
  import opened Bytes
  import opened NfaSemantics
  import opened Ast
  import opened NfaProgram
  import opened CompiledTree
  import opened Utf8
  import Runes

  function Atoms(text: seq<Byte>): seq<Node> {
    seq(|text|, i requires 0 <= i < |text| => AtomNode(text[i]))
  }

  /** The bytes t lie in s from i to j. */
  predicate IsAt(s: seq<Byte>, i: nat, j: nat, t: seq<Byte>) {
    j == i + |t| <= |s| && s[i..j] == t
  }

  lemma JoinAt(s: seq<Byte>, i: nat, m: nat, j: nat, a: seq<Byte>, b: seq<Byte>)
    ensures IsAt(s, i, m, a) && IsAt(s, m, j, b) ==> IsAt(s, i, j, a + b)
    ensures m == i + |a| && IsAt(s, i, j, a + b) ==> IsAt(s, i, m, a) && IsAt(s, m, j, b)
  {
    if m == i + |a| && j == m + |b| && j <= |s| {
      assert s[i..j] == s[i..m] + s[m..j];
      assert s[i..j][..|a|] == s[i..m] && s[i..j][|a|..] == s[m..j];
      assert (a + b)[..|a|] == a && (a + b)[|a|..] == b;
    }
  }

  // ----- the bytes that are matched -----

  /** An atom takes its encoding; where plain char is signed, its code takes as many bytes 0xFF outside ASCII. */
  function Taken(c: U32, sc: bool): seq<Byte> {
    if sc && c > 0x7F then seq(|EncodeRune(c)|, _ => 0xFF) else EncodeRune(c)
  }

  function TakenAll(text: seq<Byte>, sc: bool): seq<Byte> {
    if text == [] then [] else TakenAll(text[..|text| - 1], sc) + Taken(text[|text| - 1], sc)
  }

  lemma EncodeAllPush(runes: seq<U32>, c: U32)
    ensures Runes.EncodeAll(runes + [c]) == Runes.EncodeAll(runes) + Utf8.EncodeRune(c)
  {
    if runes == [] {
      assert [] + [c] == [c] && [c][1..] == [];
    } else {
      EncodeAllPush(runes[1..], c);
      assert (runes + [c])[1..] == runes[1..] + [c];
    }
  }

  lemma {:induction false} TakenIsEncoding(text: seq<Byte>)
    ensures TakenAll(text, false) == Runes.EncodeAll(text)
  {
    if text != [] {
      var front, c := text[..|text| - 1], text[|text| - 1];
      TakenIsEncoding(front);
      EncodeAllPush(front, c);
      assert text == front + [c];
    }
  }

  lemma {:induction false} LastBytesMatch(n: nat, s: seq<Byte>, i: nat, j: nat, ev: seq<Event>)
    requires i <= |s|
    ensures MatchesSeq(seq(n, _ => LAST_BYTE), s, i, j, ev) <==> ev == [] && IsAt(s, i, j, seq(n, _ => 0xFF))
  {
    if n > 0 {
      var front, a, b := seq(n - 1, _ => LAST_BYTE), seq(n - 1, _ => 0xFF), [0xFF];
      assert seq(n, _ => LAST_BYTE) == front + [LAST_BYTE] && seq(n, _ => 0xFF) == a + b;
      if MatchesSeq(seq(n, _ => LAST_BYTE), s, i, j, ev) {
        var m, e1, e2 := SplitLast(front, LAST_BYTE, s, i, j, ev);
        LastBytesMatch(n - 1, s, i, m, e1);
        assert s[m..j] == b;
        JoinAt(s, i, m, j, a, b);
      }
      if ev == [] && IsAt(s, i, j, a + b) {
        var m: nat := i + |a|;
        JoinAt(s, i, m, j, a, b);
        assert s[m..j][0] == 0xFF;
        LastBytesMatch(n - 1, s, i, m, []);
        JoinLast(front, LAST_BYTE, s, i, m, j, [], []);
      }
    }
  }

  lemma AtomTakes(c: U32, sc: bool, s: seq<Byte>, i: nat, j: nat, ev: seq<Event>)
    requires i <= |s|
    ensures Matches(Effective(AtomNode(c), sc), s, i, j, ev) <==> ev == [] && IsAt(s, i, j, Taken(c, sc))
  {
    hide EncodeRune;
    if sc && c > 0x7F {
      LastBytesMatch(|EncodeRune(c)|, s, i, j, ev);
    }
  }

  lemma EffectiveSnoc(front: seq<Node>, t: Node, sc: bool)
    ensures EffectiveAll(front + [t], sc) == EffectiveAll(front, sc) + [Effective(t, sc)]
  {
  }

  lemma TextSnoc(front: seq<Byte>, c: Byte, sc: bool)
    ensures EffectiveAll(Atoms(front + [c]), sc) == EffectiveAll(Atoms(front), sc) + [Effective(AtomNode(c), sc)]
    ensures TakenAll(front + [c], sc) == TakenAll(front, sc) + Taken(c, sc)
  {
    var text := front + [c];
    assert text[..|text| - 1] == front && Atoms(text) == Atoms(front) + [AtomNode(c)];
    hide Taken, Effective, EffectiveAll;
    EffectiveSnoc(Atoms(front), AtomNode(c), sc);
  }

  /** A string pattern takes, byte by byte, what the atoms take that these bytes are as runes. */
  lemma {:induction false} StringMeans(text: seq<Byte>, sc: bool, s: seq<Byte>, i: nat, j: nat, ev: seq<Event>)
    requires i <= |s|
    ensures MatchesSeq(EffectiveAll(Atoms(text), sc), s, i, j, ev) <==> ev == [] && IsAt(s, i, j, TakenAll(text, sc))
  {
    if text != [] {
      var front, c := text[..|text| - 1], text[|text| - 1];
      var us, u := EffectiveAll(Atoms(front), sc), Effective(AtomNode(c), sc);
      var a, b := TakenAll(front, sc), Taken(c, sc);
      assert text == front + [c];
      TextSnoc(front, c, sc);
      hide *;
      if MatchesSeq(us + [u], s, i, j, ev) {
        var m, e1, e2 := SplitLast(us, u, s, i, j, ev);
        StringMeans(front, sc, s, i, m, e1);
        AtomTakes(c, sc, s, m, j, e2);
        JoinAt(s, i, m, j, a, b);
      }
      if ev == [] && IsAt(s, i, j, a + b) {
        var m: nat := i + |a|;
        JoinAt(s, i, m, j, a, b);
        StringMeans(front, sc, s, i, m, []);
        AtomTakes(c, sc, s, m, j, []);
        JoinLast(us, u, s, i, m, j, [], []);
      }
    }
  }

  lemma AtomsAreWhole(text: seq<Byte>, sc: bool)
    ensures Whole(BranchNode(Atoms(text)))
    ensures Effective(BranchNode(Atoms(text)), sc) == BranchNode(EffectiveAll(Atoms(text), sc))
  {
  }

  lemma MatchesBranch(ts: seq<Node>, s: seq<Byte>, i: nat, j: nat, ev: seq<Event>)
    requires i <= |s|
    ensures Matches(BranchNode(ts), s, i, j, ev) <==> MatchesSeq(ts, s, i, j, ev)
  {
  }

  /** So its code accepts exactly these bytes, and nothing else. */
  lemma StringAccepts(text: seq<Byte>, sc: bool, s: seq<Byte>, pos: nat, ev: seq<Event>)
    ensures OwnAccepts(BranchNode(Atoms(text)), sc, s, pos, ev) <==> ev == [] && IsAt(s, 0, pos, TakenAll(text, sc))
  {
    var ts := Atoms(text);
    hide Atoms, Whole, Effective, EffectiveAll, OwnAccepts, Matches, MatchesSeq, TakenAll, IsAt;
    AtomsAreWhole(text, sc);
    MeaningIsOwn(BranchNode(ts), sc, s, pos, ev);
    MatchesBranch(EffectiveAll(ts, sc), s, 0, pos, ev);
    StringMeans(text, sc, s, 0, pos, ev);
  }

  // ----- when that is the string itself -----

  predicate IsAscii(text: seq<Byte>) {
    forall k :: 0 <= k < |text| ==> text[k] <= 0x7F
  }

  lemma OneTaken(c: Byte, sc: bool)
    ensures if c <= 0x7F then Taken(c, sc) == [c] else |Taken(c, sc)| > 1
  {
    Runes.TailShape(c, RuneLen(c));
    if c <= 0x7F {
      AsciiRune(c);
    }
  }

  lemma AsciiSnoc(front: seq<Byte>, c: Byte)
    ensures IsAscii(front + [c]) <==> IsAscii(front) && c <= 0x7F
  {
    assert (front + [c])[|front|] == c && forall k :: 0 <= k < |front| ==> (front + [c])[k] == front[k];
  }

  lemma {:induction false} AsciiTakesItself(text: seq<Byte>, sc: bool)
    ensures |TakenAll(text, sc)| >= |text|
    ensures if IsAscii(text) then TakenAll(text, sc) == text else |TakenAll(text, sc)| > |text|
  {
    if text != [] {
      var front, c := text[..|text| - 1], text[|text| - 1];
      assert TakenAll(text, sc) == TakenAll(front, sc) + Taken(c, sc);
      assert text == front + [c];
      hide *;
      AsciiTakesItself(front, sc);
      OneTaken(c, sc);
      AsciiSnoc(front, c);
    }
  }

  /** The code of a string pattern accepts exactly the bytes of the string. */
  ghost predicate AcceptsLiterally(text: seq<Byte>, sc: bool) {
    forall s, pos: nat, ev ::
      OwnAccepts(BranchNode(Atoms(text)), sc, s, pos, ev) <==> ev == [] && IsAt(s, 0, pos, text)
  }

  /** It does exactly when they are ASCII: other bytes are encoded a second time. */
  lemma StringExact(text: seq<Byte>, sc: bool)
    ensures AcceptsLiterally(text, sc) <==> IsAscii(text)
  {
    AsciiTakesItself(text, sc);
    hide OwnAccepts, TakenAll, IsAscii;
    forall s, pos: nat, ev
      ensures OwnAccepts(BranchNode(Atoms(text)), sc, s, pos, ev) <==> ev == [] && IsAt(s, 0, pos, TakenAll(text, sc))
    {
      StringAccepts(text, sc, s, pos, ev);
    }
    if !IsAscii(text) {
      var s, n := TakenAll(text, sc), |TakenAll(text, sc)|;
      assert s[0..n] == s;
      assert IsAt(s, 0, n, s) && !IsAt(s, 0, n, text);
      assert OwnAccepts(BranchNode(Atoms(text)), sc, s, n, []);
    }
  }
}
