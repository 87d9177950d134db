/** The trie compiler proper: gbuf_size and gbuf_fill of instruction_trie/main.c, and the walk of parse_line over the
    arrays they make. */
module TrieCompiler {
  import opened Options
  import opened TrieBuilder
  import opened BuilderNodes
  import opened FlatTrie
  import opened TrieLayout

  /** trie_set_key, instruction_trie/main.c:9-13. */
  function SetKey(w0: Bits64, w1: Bits64, c: Byte): (r: (Bits64, Bits64))
    ensures r.0 + r.1 == (w0 + w1)[c % 128 := true]
  {
    var ik, frag := c / 64 % 2, c % 64;
    assert c % 128 == 64 * ik + frag;
    if ik == 1 then (w0, w1[frag := true]) else (w0[frag := true], w1)
  }

  class Compiler {
    var gbuf: array<Node>
    var aux: array<int>
    var apos: nat
    var gpos: nat
    // The slots of aux that have been written, each as often as it was.
    ghost var written: multiset<nat>

    constructor ()
      ensures apos == gpos == 0 && fresh(gbuf) && fresh(aux)
    {
      gbuf := new Node[0](_ => Node(NO_BITS, NO_BITS, NO_BITS, NO_BITS, 0, 0));
      aux := new int[0](_ => 0);
      apos, gpos, written := 0, 0, multiset{};
    }

    /** Every assignment to an element of aux. */
    method Put(slot: nat, value: int)
      requires slot < aux.Length
      modifies aux, `written
      ensures aux[..] == old(aux[..])[slot := value] && written == old(written) + multiset{slot}
    {
      aux[slot] := value;
      written := written + multiset{slot};
    }

    /** gbuf_size, instruction_trie/main.c:92-103. */
    method GbufSize(node: BuilderNode, ghost b: Builder)
      requires node.Valid() && node.trie == b
      modifies `apos, `gpos
      ensures gpos == old(gpos) + NodesOf(b) && apos == old(apos) + AuxOf(b)
      decreases b
    {
      hide BuilderNode.Valid;
      node.InItsOwn();
      assert b.ents[..|b.ents|] == b.ents;
      for i := 0 to |node.ents|
        invariant gpos == old(gpos) + NodesBefore(b, i)
        invariant apos == old(apos) + Number(b.ents[..i], true) + Number(b.ents[..i], false) + InnerBefore(b, i)
      {
        NumberStep(b.ents, i);
        node.EntryIs(i);
        if node.ents[i].term {
          apos := apos + 1;
        }
        if |node.ents[i].next.ents| > 0 {
          apos := apos + 1;
          gpos := gpos + 1;
          GbufSize(node.ents[i].next, b.ents[i].next);
        }
      }
    }

    /** The first loop of gbuf_fill (instruction_trie/main.c:108-123): the bit sets of node n. */
    method MarkBits(n: nat, node: BuilderNode, ghost b: Builder) returns (np: nat, dp: nat)
      requires n < gbuf.Length && node.Valid() && node.trie == b
      modifies gbuf
      ensures np == Number(b.ents, true) && dp == Number(b.ents, false)
      ensures gbuf[n].keys0 + gbuf[n].keys1 == BitsOf(b.ents, true)
      ensures gbuf[n].terms0 + gbuf[n].terms1 == BitsOf(b.ents, false)
      ensures forall j :: 0 <= j < gbuf.Length && j != n ==> gbuf[j] == old(gbuf[j])
    {
      np, dp := 0, 0;
      gbuf[n] := gbuf[n].(keys0 := NO_BITS, keys1 := NO_BITS, terms0 := NO_BITS, terms1 := NO_BITS);
      assert b.ents[..|b.ents|] == b.ents;
      for i := 0 to |node.ents|
        invariant np == Number(b.ents[..i], true) && dp == Number(b.ents[..i], false)
        invariant gbuf[n].keys0 + gbuf[n].keys1 == BitsOf(b.ents[..i], true)
        invariant gbuf[n].terms0 + gbuf[n].terms1 == BitsOf(b.ents[..i], false)
        invariant forall j :: 0 <= j < gbuf.Length && j != n ==> gbuf[j] == old(gbuf[j])
      {
        NumberStep(b.ents, i);
        node.EntryIs(i);
        var k := node.ents[i].key;
        if node.ents[i].term {
          var t := SetKey(gbuf[n].terms0, gbuf[n].terms1, k);
          gbuf[n] := gbuf[n].(terms0 := t.0, terms1 := t.1);
          dp := dp + 1;
        }
        if |node.ents[i].next.ents| > 0 {
          var t := SetKey(gbuf[n].keys0, gbuf[n].keys1, k);
          gbuf[n] := gbuf[n].(keys0 := t.0, keys1 := t.1);
          np := np + 1;
        }
      }
    }

    /** gbuf_fill, instruction_trie/main.c:105-166: it lays b out from node gpos and slot apos on. */
    method GbufFill(node: BuilderNode, ghost b: Builder)
      requires WellFormed(b) && node.Valid() && node.trie == b
      requires gpos + NodesOf(b) < gbuf.Length && apos + AuxOf(b) <= aux.Length
      modifies `apos, `gpos, `written, gbuf, aux
      ensures gpos == old(gpos) + NodesOf(b) && apos == old(apos) + AuxOf(b)
      ensures Flat(gbuf[..], aux[..], old(gpos), old(apos), b)
      ensures Untouched(old(gbuf[..]), gbuf[..], old(gpos), gpos + 1)
      ensures Untouched(old(aux[..]), aux[..], old(apos), apos)
      ensures LogsTrie(old(written), written, old(apos), b)
      decreases b, 2
    {
      var n, a := gpos, apos;
      var np, dp := MarkBits(n, node, b);
      gbuf[n] := gbuf[n].(next := if np == 0 then 0 else apos);
      gbuf[n] := gbuf[n].(data := if dp == 0 then 0 else apos + np);
      apos := apos + np + dp;
      Scatter(node, b, n, a);
    }

    /** The second loop of gbuf_fill (instruction_trie/main.c:138-165). */
    method Scatter(node: BuilderNode, ghost b: Builder, n: nat, ghost a: nat)
      requires node.Valid() && node.trie == b
      requires WellFormed(b) && n == gpos && apos == a + Own(b)
      requires n + NodesOf(b) < gbuf.Length && a + AuxOf(b) <= aux.Length
      requires HeaderOk(gbuf[n], a, b.ents)
      modifies `apos, `gpos, `written, gbuf, aux
      ensures gpos == n + NodesOf(b) && apos == a + AuxOf(b)
      ensures Flat(gbuf[..], aux[..], n, a, b)
      ensures Untouched(old(gbuf[..]), gbuf[..], n, gpos + 1)
      ensures Untouched(old(aux[..]), aux[..], a, apos)
      ensures LogsTrie(old(written), written, a, b)
      decreases b, 1
    {
      hide WellFormed, FlatEntry, BitsOf, Number, Rank, NodesBefore, InnerBefore, LogsTrie, LogsEntries, LogsEntry;
      BeforeNothing(b);
      LogsNone(written, a, b);
      for i := 0 to |node.ents|
        invariant gpos == n + NodesBefore(b, i) && apos == a + Own(b) + InnerBefore(b, i)
        invariant gbuf[n] == old(gbuf[n])
        invariant forall j :: 0 <= j < i ==> FlatEntry(gbuf[..], aux[..], n, a, b, j)
        invariant Untouched(old(gbuf[..]), gbuf[..], n + 1, gpos + 1)
        invariant Untouched(old(aux[..]), aux[..], a, apos)
        invariant LogsEntries(old(written), written, a, b, i)
      {
        Nested(b, i, i + 1);
        ghost var w := written;
        PlaceEntry(node, b, n, a, i);
        LogsNext(old(written), w, written, a, b, i);
      }
      LogsAll(old(written), written, a, b);
    }

    /** One round of the second loop: the slots of entry i, and below it the whole of its trie. */
    method PlaceEntry(node: BuilderNode, ghost b: Builder, n: nat, ghost a: nat, i: nat)
      requires node.Valid() && node.trie == b
      requires WellFormed(b) && i < |b.ents|
      requires gpos == n + NodesBefore(b, i) && apos == a + Own(b) + InnerBefore(b, i)
      requires n + NodesOf(b) < gbuf.Length && a + AuxOf(b) <= aux.Length
      requires HeaderOk(gbuf[n], a, b.ents)
      requires forall j :: 0 <= j < i ==> FlatEntry(gbuf[..], aux[..], n, a, b, j)
      modifies `apos, `gpos, `written, gbuf, aux
      ensures gpos == n + NodesBefore(b, i + 1) && apos == a + Own(b) + InnerBefore(b, i + 1)
      ensures forall j :: 0 <= j <= i ==> FlatEntry(gbuf[..], aux[..], n, a, b, j)
      ensures Untouched(old(gbuf[..]), gbuf[..], old(gpos) + 1, gpos + 1)
      ensures UntouchedBut(old(aux[..]), aux[..], a, a + Own(b), old(apos), apos)
      ensures LogsEntry(old(written), written, a, b, i)
      decreases b, 0, 1
    {
      hide LogsEntry, BitsOf, Number, Rank, FlatEntry, Flat, HeaderOk, TrieNext, BuilderNode.Valid;
      ghost var g0, x0 := gbuf[..], aux[..];
      WriteEntry(node, b, n, a, i);
      forall j | 0 <= j < i ensures FlatEntry(gbuf[..], aux[..], n, a, b, j) {
        KeepEntry(g0, x0, gbuf[..], aux[..], n, a, b, i, j);
      }
    }

    /** The value of entry i. */
    method WriteValue(node: BuilderNode, ghost b: Builder, n: nat, ghost a: nat, i: nat)
      requires node.Valid() && node.trie == b && WellFormed(b) && i < |b.ents|
      requires n < gbuf.Length && a + AuxOf(b) <= aux.Length && HeaderOk(gbuf[n], a, b.ents)
      modifies `written, aux
      ensures b.ents[i].term ==> TermSlot(a, b.ents, i) < aux.Length
      ensures aux[..] == if b.ents[i].term then old(aux[..])[TermSlot(a, b.ents, i) := b.ents[i].data] else old(aux[..])
      ensures written == old(written) + if b.ents[i].term then multiset{TermSlot(a, b.ents, i)} else multiset{}
    {
      hide HeaderOk, TrieNext, BuilderNode.Valid, WellFormed, InnerBefore, TermSlot;
      node.InItsOwn();
      node.EntryIs(i);
      var e := node.ents[i];
      EntrySlots(gbuf[n], a, b, i);
      if e.term {
        Put(TrieNext(gbuf[n].terms0, gbuf[n].terms1, gbuf[n].data, e.key), e.data);
      }
    }

    /** The link of entry i. */
    method WriteLink(node: BuilderNode, ghost b: Builder, n: nat, ghost a: nat, i: nat)
      requires node.Valid() && node.trie == b && WellFormed(b) && i < |b.ents| && HasKids(b.ents[i])
      requires n < gbuf.Length && a + AuxOf(b) <= aux.Length && HeaderOk(gbuf[n], a, b.ents)
      modifies `gpos, `written, aux
      ensures gpos == old(gpos) + 1 && LinkSlot(a, b.ents, i) < aux.Length
      ensures aux[..] == old(aux[..])[LinkSlot(a, b.ents, i) := gpos]
      ensures written == old(written) + multiset{LinkSlot(a, b.ents, i)}
    {
      hide HeaderOk, TrieNext, BuilderNode.Valid, WellFormed, InnerBefore, LinkSlot;
      node.InItsOwn();
      node.EntryIs(i);
      var e := node.ents[i];
      EntrySlots(gbuf[n], a, b, i);
      gpos := gpos + 1;
      Put(TrieNext(gbuf[n].keys0, gbuf[n].keys1, gbuf[n].next, e.key), gpos);
    }

    method WriteEntry(node: BuilderNode, ghost b: Builder, n: nat, ghost a: nat, i: nat)
      requires node.Valid() && node.trie == b
      requires WellFormed(b) && i < |b.ents|
      requires gpos == n + NodesBefore(b, i) && apos == a + Own(b) + InnerBefore(b, i)
      requires n + NodesOf(b) < gbuf.Length && a + AuxOf(b) <= aux.Length
      requires HeaderOk(gbuf[n], a, b.ents)
      modifies `apos, `gpos, `written, gbuf, aux
      ensures gpos == n + NodesBefore(b, i + 1) && apos == a + Own(b) + InnerBefore(b, i + 1)
      ensures FlatEntry(gbuf[..], aux[..], n, a, b, i)
      ensures Untouched(old(gbuf[..]), gbuf[..], old(gpos) + 1, gpos + 1)
      ensures UntouchedBut(old(aux[..]), aux[..], a, a + Own(b), old(apos), apos)
      ensures WritesOf(old(aux[..]), aux[..], a, b, i)
      ensures LogsEntry(old(written), written, a, b, i)
      decreases b, 0, 0
    {
      hide LogsEntry, LogsTrie, Rank, FlatEntry, Flat, HeaderOk, TrieNext, BuilderNode.Valid, WellFormed, NodesBefore,
           InnerBefore, LinkSlot, TermSlot, Untouched, UntouchedBut, WritesOf, BitsOf, Number, NodesOf, AuxOf;
      ghost var g0, x0, lo := gbuf[..], aux[..], apos;
      node.InItsOwn();
      node.EntryIs(i);
      var e := node.ents[i];
      EntryOfWellFormed(b, i);
      EntrySlots(gbuf[n], a, b, i);
      Nested(b, i + 1, |b.ents|);
      WriteValue(node, b, n, a, i);
      ghost var w1, w2, x2 := written, written, aux[..];
      SameUntouched(g0, gpos + 1, gpos + 1);
      SameUntouched(x2, apos, apos);
      if |e.next.ents| > 0 {
        Within(n, a, b, i);
        WriteLink(node, b, n, a, i);
        w2, x2 := written, aux[..];
        GbufFill(e.next, b.ents[i].next);
      }
      EntryFrame(x0, x2, aux[..], a, b, i, lo, apos);
      LogsOne(old(written), w1, w2, written, a, b, i);
      ChildlessStep(b, i);
      FlatEntryIs(gbuf[..], aux[..], n, a, b, i);
    }

    /** main, instruction_trie/main.c:226-292: build, measure, allocate, fill.  The arrays are exactly as long as
        gbuf_size computed, and each slot is written once. */
    method Compile(ws: seq<Word>)
      requires Spellable(ws)
      modifies this
      ensures fresh(gbuf) && fresh(aux)
      ensures gbuf.Length == gpos + 1 == NodesOf(Build(ws)) + 1 && aux.Length == apos == AuxOf(Build(ws))
      ensures Flat(gbuf[..], aux[..], 0, 0, Build(ws))
      ensures forall s: nat :: written[s] == if s < aux.Length then 1 else 0
    {
      hide Flat, WellFormed, Writes, BuilderNode.Valid, NodesOf, AuxOf;
      var base := BuildTrie(ws);
      BuildIsWellFormed(ws);
      gpos, apos := 0, 0;
      GbufSize(base, base.trie);
      gbuf := new Node[gpos + 1](_ => Node(NO_BITS, NO_BITS, NO_BITS, NO_BITS, 0, 0));
      aux := new int[apos](_ => 0);
      gpos, apos, written := 0, 0, multiset{};
      GbufFill(base, base.trie);
      forall s: nat ensures written[s] == if s < aux.Length then 1 else 0 {
        EverySlotIsWrittenOnce(0, base.trie, s);
      }
    }

    /** The loop of parse_line (parser.c:367-378, 547-556) over the identifier that starts at start and ends before
        end: the value found for it, or None where the source goes on to try a label. */
    method Walk(line: seq<Byte>, start: nat, ghost end: nat, ghost b: Builder) returns (r: Option<int>)
      requires WellFormed(b) && Flat(gbuf[..], aux[..], 0, 0, b)
      requires TokenEnds(line, start, end)
      ensures r == Lookup(b, Masked(line[start..end]))
    {
      hide WellFormed, Flat, FlatEntry, Lookup, TrieNext, IsIdentifierCharacter, Identifier;
      var pos: nat, i: nat := 0, start;
      ghost var a: nat, cur := 0, b;
      while true
        invariant start <= i < end && WellFormed(cur) && Flat(gbuf[..], aux[..], pos, a, cur)
        invariant Lookup(b, Masked(line[start..end])) == Lookup(cur, Masked(line[i..end]))
        decreases end - i
      {
        var here := line[i];
        ghost var e := Find(cur.ents, here % 128);
        WalkStep(gbuf[..], aux[..], pos, a, cur, line[i..end]);
        IdentifierExactly(line[i + 1]);
        if !Identifier(line[i + 1]) {
          assert i + 1 == end;
          var term := TrieNext(gbuf[pos].terms0, gbuf[pos].terms1, gbuf[pos].data, here);
          return if term < 0 then None else Some(aux[term]);
        }
        assert i + 1 < end;
        var next := TrieNext(gbuf[pos].keys0, gbuf[pos].keys1, gbuf[pos].next, here);
        if next < 0 {
          return None;
        }
        assert line[i..end][1..] == line[i + 1..end];
        pos := aux[next];
        a, cur := AuxAt(a, cur, e), cur.ents[e].next;
        i := i + 1;
      }
    }

    /** The whole way: the word list is compiled, and the reader walks over an identifier of a line. */
    method Recognise(ws: seq<Word>, line: seq<Byte>, start: nat, ghost end: nat) returns (r: Option<int>)
      requires Spellable(ws)
      requires TokenEnds(line, start, end)
      modifies this
      ensures r == Dictionary(ws, Masked(line[start..end]))
      // An ASCII token has a value exactly if it is a word of an admissible list.
      ensures Admissible(ws) && Ascii(line[start..end]) ==>
                forall d :: r == Some(d) <==> exists i :: 0 <= i < |ws| && ws[i].text == line[start..end] && ws[i].data == d
      // The reader is right about any token exactly if that is ASCII or no word when its top bits are dropped.
      ensures r == Dictionary(ws, line[start..end])
         <==> Ascii(line[start..end]) || Dictionary(ws, Masked(line[start..end])) == None
    {
      Compile(ws);
      BuildIsWellFormed(ws);
      ghost var t := line[start..end];
      r := Walk(line, start, end, Build(ws));
      BuildIsDictionary(ws, Masked(t));
      ReaderAgreesExactly(ws, t);
      if Admissible(ws) && Ascii(t) {
        forall d ensures r == Some(d) <==> exists i :: 0 <= i < |ws| && ws[i].text == t && ws[i].data == d {
          FlatTrieIsDictionary(ws, t, d);
        }
      }
    }
  }

  /** identifier, parser.c:15-22. */
  predicate Identifier(c: Byte) {
    || 97 <= c <= 122 || 65 <= c <= 90 || 48 <= c <= 57 || c == 95
  }

  /** The characters of identifiers, written out. */
  predicate IsIdentifierCharacter(c: char) {
    c in {'a', 'b', 'c', 'd', 'e', 'f', 'g', 'h', 'i', 'j', 'k', 'l', 'm',
          'n', 'o', 'p', 'q', 'r', 's', 't', 'u', 'v', 'w', 'x', 'y', 'z',
          'A', 'B', 'C', 'D', 'E', 'F', 'G', 'H', 'I', 'J', 'K', 'L', 'M',
          'N', 'O', 'P', 'Q', 'R', 'S', 'T', 'U', 'V', 'W', 'X', 'Y', 'Z',
          '0', '1', '2', '3', '4', '5', '6', '7', '8', '9', '_'}
  }

  /** The token that starts at start: its first character, whatever it is, and the identifier characters after it. */
  predicate TokenEnds(line: seq<Byte>, start: nat, end: nat) {
    && start < end < |line| && !IsIdentifierCharacter(line[end] as char)
    && forall j :: start < j < end ==> IsIdentifierCharacter(line[j] as char)
  }

  /** A digit goes on with the token: the label line "add1:" starts with no word of the list "add". */
  lemma DigitGoesOn(d: int)
    ensures var ws, line := [Word([97, 100, 100], d)], [97, 100, 100, 49, 58];
      && (forall end: nat :: TokenEnds(line, 0, end) <==> end == 4)
      && Dictionary(ws, Masked(line[0..4])) == None && Dictionary(ws, line[0..3]) == Some(d)
  {
    var ws, line := [Word([97, 100, 100], d)], [97, 100, 100, 49, 58];
    assert line[3] == 49 && line[4] == 58;
    IdentifierExactly(97);
    IdentifierExactly(100);
    IdentifierExactly(49);
    IdentifierExactly(58);
    forall end: nat ensures TokenEnds(line, 0, end) <==> end == 4 {
      if end == 1 || end == 2 || end == 3 {
        assert IsIdentifierCharacter(line[end] as char);
      }
    }
    assert line[0..3] == [97, 100, 100] && Unshadowed(ws, 0);
    assert |Masked(line[0..4])| == 4;
  }

  /** identifier accepts exactly these. */
  lemma IdentifierExactly(c: Byte)
    ensures Identifier(c) <==> IsIdentifierCharacter(c as char)
  {
    var d := c as char;
    assert d as int == c;
  }

  /** The characters as the flat trie sees them (trie.c:4-5). */
  function Masked(s: seq<Byte>): (r: seq<Byte>)
    ensures |r| == |s| && forall i :: 0 <= i < |s| ==> r[i] == s[i] % 128
  {
    seq(|s|, i requires 0 <= i < |s| => s[i] % 128)
  }

  predicate Spellable(ws: seq<Word>) {
    forall i, j :: 0 <= i < |ws| && 0 <= j < |ws[i].text| ==> ws[i].text[j] < 128 && ws[i].text[j] % 64 != 0
  }

  lemma {:induction false} InsertIsWellFormed(b: Builder, w: seq<Byte>, data: int)
    requires WellFormed(b) && forall j :: 0 <= j < |w| ==> w[j] < 128 && w[j] % 64 != 0
    ensures WellFormed(Insert(b, w, data))
    decreases |w|
  {
    if w != [] {
      var i := Find(b.ents, w[0]);
      var b' := Insert(b, w, data);
      if i < |b.ents| {
        assert EntryOk(b.ents, i);
        InsertIsWellFormed(b.ents[i].next, w[1..], data);
        forall j | 0 <= j < |b'.ents| ensures EntryOk(b'.ents, j) && WellFormed(b'.ents[j].next) {
          assert EntryOk(b.ents, j);
        }
      } else {
        InsertIsWellFormed(EMPTY, w[1..], data);
        forall j | 0 <= j < |b'.ents| ensures EntryOk(b'.ents, j) && WellFormed(b'.ents[j].next) {
          if j < |b.ents| {
            assert EntryOk(b.ents, j);
          }
        }
      }
    }
  }

  lemma {:induction false} BuildIsWellFormed(ws: seq<Word>)
    requires Spellable(ws)
    ensures WellFormed(Build(ws))
  {
    if ws != [] {
      var n := |ws| - 1;
      BuildIsWellFormed(ws[..n]);
      assert forall j | 0 <= j < |ws[n].text| :: ws[n].text[j] < 128 && ws[n].text[j] % 64 != 0;
      InsertIsWellFormed(Build(ws[..n]), ws[n].text, ws[n].data);
    }
  }

  /** The character c at the node of b: its bits are set exactly as the entries of b say. */
  lemma BitsOfCharacter(node: Node, a: nat, b: Builder, c: Byte)
    requires WellFormed(b) && HeaderOk(node, a, b.ents)
    ensures var e, s := Find(b.ents, c % 128), c % 128;
      && ((node.keys0 + node.keys1)[s] <==> e < |b.ents| && HasKids(b.ents[e]))
      && ((node.terms0 + node.terms1)[s] <==> e < |b.ents| && b.ents[e].term)
      && ((node.keys0 + node.keys1)[s] || (node.terms0 + node.terms1)[s] ==> c % 64 != 0)
  {
    hide WellFormed, BitsOf, Number, Find;
    BitOfCharacter(b, c % 128, true);
    BitOfCharacter(b, c % 128, false);
    assert c % 128 % 64 == c % 64;
  }

  lemma BitOfCharacter(b: Builder, s: Byte, kids: bool)
    requires WellFormed(b) && s < 128
    ensures var e := Find(b.ents, s);
      && (BitsOf(b.ents, kids)[s] <==> e < |b.ents| && Chosen(b.ents[e], kids))
      && (BitsOf(b.ents, kids)[s] ==> s % 64 != 0)
  {
    hide WellFormed, BitsOf, Find;
    BitsMean(b.ents, kids, s);
    OnlyEntry(b, s);
  }

  /** At most one entry of a node has the character s. */
  lemma OnlyEntry(b: Builder, s: Byte)
    requires WellFormed(b) && s < 128
    ensures var e := Find(b.ents, s);
      && (forall i :: 0 <= i < |b.ents| ==> (b.ents[i].key % 128 == s <==> i == e))
      && (e < |b.ents| ==> s % 64 != 0)
  {
    var e := Find(b.ents, s);
    forall i | 0 <= i < |b.ents| ensures b.ents[i].key % 128 == s <==> i == e {
      assert EntryOk(b.ents, i);
    }
    assert e < |b.ents| ==> EntryOk(b.ents, e);
  }

  /** One step of the walk over the arrays is one step of the lookup in the pointer trie. */
  lemma WalkStep(g: seq<Node>, x: seq<int>, n: nat, a: nat, b: Builder, t: seq<Byte>)
    requires WellFormed(b) && Flat(g, x, n, a, b) && t != []
    ensures n < |g|
    ensures var c := t[0];
      && ((g[n].keys0 + g[n].keys1)[c % 128] ==> c % 64 != 0)
      && ((g[n].terms0 + g[n].terms1)[c % 128] ==> c % 64 != 0)
    ensures var term := TrieNext(g[n].terms0, g[n].terms1, g[n].data, t[0]);
      |t| == 1 ==> term < |x| && Lookup(b, Masked(t)) == if term < 0 then None else Some(x[term])
    ensures var e, next := Find(b.ents, t[0] % 128), TrieNext(g[n].keys0, g[n].keys1, g[n].next, t[0]);
      |t| > 1 ==>
        if next < 0 then Lookup(b, Masked(t)) == None
        else
          && next < |x| && e < |b.ents| && x[next] >= 0 && WellFormed(b.ents[e].next)
          && Flat(g, x, x[next], AuxAt(a, b, e), b.ents[e].next)
          && Lookup(b, Masked(t)) == Lookup(b.ents[e].next, Masked(t[1..]))
  {
    hide TrieNext, BitsOf, Rank, Number, NodesBefore, InnerBefore;
    var c, e := t[0], Find(b.ents, t[0] % 128);
    BitsOfCharacter(g[n], a, b, c);
    TrieNextIsRank(g[n].keys0, g[n].keys1, g[n].next, c);
    TrieNextIsRank(g[n].terms0, g[n].terms1, g[n].data, c);
    assert Masked(t)[1..] == Masked(t[1..]);
    if e < |b.ents| {
      EntryOfWellFormed(b, e);
      assert FlatEntry(g, x, n, a, b, e);
      EntrySlots(g[n], a, b, e);
      SameSlot(g[n], a, b, e, c);
    }
    if |t| > 1 && e < |b.ents| && !HasKids(b.ents[e]) {
      NothingBelow(b.ents[e].next, Masked(t[1..]));
    }
  }

  lemma NothingBelow(b: Builder, w: seq<Byte>)
    requires b.ents == []
    ensures Lookup(b, w) == None
  {}

  /** Characters that agree modulo 128 have one slot. */
  lemma SameSlot(node: Node, a: nat, b: Builder, e: nat, c: Byte)
    requires e < |b.ents| && b.ents[e].key == c % 128
    requires (node.keys0 + node.keys1)[c % 128] || (node.terms0 + node.terms1)[c % 128] ==> c % 64 != 0
    requires (node.keys0 + node.keys1)[c % 128] ==> b.ents[e].key % 64 != 0
    requires (node.terms0 + node.terms1)[c % 128] ==> b.ents[e].key % 64 != 0
    ensures TrieNext(node.keys0, node.keys1, node.next, c) == TrieNext(node.keys0, node.keys1, node.next, b.ents[e].key)
    ensures TrieNext(node.terms0, node.terms1, node.data, c)
         == TrieNext(node.terms0, node.terms1, node.data, b.ents[e].key)
  {
    var k := b.ents[e].key;
    TrieNextIsRank(node.keys0, node.keys1, node.next, c);
    TrieNextIsRank(node.keys0, node.keys1, node.next, k);
    TrieNextIsRank(node.terms0, node.terms1, node.data, c);
    TrieNextIsRank(node.terms0, node.terms1, node.data, k);
    hide TrieNext;
    assert k % 128 == c % 128;
  }

  lemma EntryOfWellFormed(b: Builder, i: nat)
    requires WellFormed(b) && i < |b.ents|
    ensures EntryOk(b.ents, i) && WellFormed(b.ents[i].next)
  {}

  /** The slot expressions of gbuf_fill and of the reader name the slots of the layout. */
  lemma EntrySlots(node: Node, a: nat, b: Builder, i: nat)
    requires WellFormed(b) && i < |b.ents| && HeaderOk(node, a, b.ents)
    ensures var k := b.ents[i].key;
      && k % 64 != 0
      && (b.ents[i].term ==> TrieNext(node.terms0, node.terms1, node.data, k) == TermSlot(a, b.ents, i))
      && (HasKids(b.ents[i]) ==> TrieNext(node.keys0, node.keys1, node.next, k) == LinkSlot(a, b.ents, i))
    ensures HasKids(b.ents[i]) ==> a <= LinkSlot(a, b.ents, i) < a + Number(b.ents, true)
    ensures b.ents[i].term ==> a + Number(b.ents, true) <= TermSlot(a, b.ents, i) < a + Own(b)
  {
    hide TrieNext, Rank, Number, BitsOf;
    EntryOfWellFormed(b, i);
    DistinctSlots(b);
    OwnSlots(a, b.ents, i);
    var k := b.ents[i].key;
    BitsMean(b.ents, true, k % 128);
    BitsMean(b.ents, false, k % 128);
    if b.ents[i].term {
      assert Chosen(b.ents[i], false);
      TrieNextIsRank(node.terms0, node.terms1, node.data, k);
    }
    if HasKids(b.ents[i]) {
      assert Chosen(b.ents[i], true);
      TrieNextIsRank(node.keys0, node.keys1, node.next, k);
    }
  }

  lemma FlatEntryIs(g: seq<Node>, x: seq<int>, n: nat, a: nat, b: Builder, i: nat)
    requires i < |b.ents|
    requires b.ents[i].term ==> TermSlot(a, b.ents, i) < |x| && x[TermSlot(a, b.ents, i)] == b.ents[i].data
    requires HasKids(b.ents[i]) ==>
               && LinkSlot(a, b.ents, i) < |x| && x[LinkSlot(a, b.ents, i)] == NodeAt(n, b, i)
               && Flat(g, x, NodeAt(n, b, i), AuxAt(a, b, i), b.ents[i].next)
    ensures FlatEntry(g, x, n, a, b, i)
  {}

  /** Writing the slots and the trie of entry i leaves the earlier entry j in place. */
  lemma KeepEntry(g: seq<Node>, x: seq<int>, g': seq<Node>, x': seq<int>, n: nat, a: nat, b: Builder, i: nat, j: nat)
    requires WellFormed(b) && j < i < |b.ents|
    requires n + NodesOf(b) < |g| && a + AuxOf(b) <= |x| && FlatEntry(g, x, n, a, b, j)
    requires Untouched(g, g', NodeAt(n, b, i), |g|) && WritesOf(x, x', a, b, i)
    ensures FlatEntry(g', x', n, a, b, j)
  {
    hide BitsOf, Number, Rank, TrieNext, FlatEntry, WellFormed, NodesBefore, InnerBefore, LinkSlot, TermSlot;
    DistinctSlots(b);
    OwnSlots(a, b.ents, i);
    OwnSlots(a, b.ents, j);
    SlotsDiffer(a, b.ents, i, j);
    Nested(b, j + 1, i);
    Nested(b, i, |b.ents|);
    if HasKids(b.ents[j]) {
      Within(n, a, b, j);
    }
    FlatEntryFrame(g, x, g', x', n, a, b, j);
  }

  /** The slots that round i of the second loop may write. */
  ghost predicate WritesOf(x: seq<int>, x': seq<int>, a: nat, b: Builder, i: nat)
    requires i < |b.ents|
  {
    && |x'| == |x|
    && forall s :: 0 <= s < |x| && s < AuxAt(a, b, i) && x'[s] != x[s] ==>
                     || (b.ents[i].term && s == TermSlot(a, b.ents, i))
                     || (HasKids(b.ents[i]) && s == LinkSlot(a, b.ents, i))
  }

  ghost predicate Untouched<T>(s: seq<T>, s': seq<T>, lo: nat, hi: nat) {
    |s'| == |s| && forall j :: 0 <= j < |s| && !(lo <= j < hi) ==> s'[j] == s[j]
  }

  ghost predicate UntouchedBut<T>(s: seq<T>, s': seq<T>, lo: nat, hi: nat, lo': nat, hi': nat) {
    |s'| == |s| && forall j :: 0 <= j < |s| && !(lo <= j < hi) && !(lo' <= j < hi') ==> s'[j] == s[j]
  }

  lemma NumberStep(ents: seq<Entry>, i: nat)
    requires i < |ents|
    ensures Number(ents[..i + 1], true) == Number(ents[..i], true) + if HasKids(ents[i]) then 1 else 0
    ensures Number(ents[..i + 1], false) == Number(ents[..i], false) + if ents[i].term then 1 else 0
    ensures BitsOf(ents[..i + 1], true) == if HasKids(ents[i]) then BitsOf(ents[..i], true)[ents[i].key % 128 := true]
                                           else BitsOf(ents[..i], true)
    ensures BitsOf(ents[..i + 1], false) == if ents[i].term then BitsOf(ents[..i], false)[ents[i].key % 128 := true]
                                            else BitsOf(ents[..i], false)
  {
    assert ents[..i + 1][..i] == ents[..i] && ents[..i + 1][i] == ents[i];
  }

  lemma SameUntouched<T>(s: seq<T>, lo: nat, hi: nat)
    ensures Untouched(s, s, lo, hi)
  {}

  /** What writing the value and the link of entry i, and then the region from lo to hi, leaves. */
  lemma EntryFrame(x: seq<int>, x2: seq<int>, x3: seq<int>, a: nat, b: Builder, i: nat, lo: nat, hi: nat)
    requires i < |b.ents| && Untouched(x2, x3, lo, hi) && |x2| == |x|
    requires lo == AuxAt(a, b, i) <= hi
    requires b.ents[i].term ==> a <= TermSlot(a, b.ents, i) < a + Own(b) && TermSlot(a, b.ents, i) < |x|
                                && x2[TermSlot(a, b.ents, i)] == b.ents[i].data
    requires HasKids(b.ents[i]) ==> a <= LinkSlot(a, b.ents, i) < a + Own(b) && LinkSlot(a, b.ents, i) < |x|
    requires forall s :: 0 <= s < |x| && x2[s] != x[s] ==>
               (b.ents[i].term && s == TermSlot(a, b.ents, i)) || (HasKids(b.ents[i]) && s == LinkSlot(a, b.ents, i))
    ensures UntouchedBut(x, x3, a, a + Own(b), lo, hi) && WritesOf(x, x3, a, b, i)
    ensures b.ents[i].term ==> x3[TermSlot(a, b.ents, i)] == b.ents[i].data
    ensures HasKids(b.ents[i]) ==> x3[LinkSlot(a, b.ents, i)] == x2[LinkSlot(a, b.ents, i)]
  {
    hide LinkSlot, TermSlot;
  }

  lemma ChildlessStep(b: Builder, i: nat)
    requires i < |b.ents|
    ensures !HasKids(b.ents[i]) ==>
              NodesBefore(b, i + 1) == NodesBefore(b, i) && InnerBefore(b, i + 1) == InnerBefore(b, i)
  {}

  lemma BeforeNothing(b: Builder)
    ensures NodesBefore(b, 0) == 0 && InnerBefore(b, 0) == 0
  {}

  // ---------- what the reader accepts ----------

  predicate Ascii(t: seq<Byte>) {
    forall i :: 0 <= i < |t| ==> t[i] < 128
  }

  lemma AsciiIsUnmasked(t: seq<Byte>)
    ensures Masked(t) == t <==> Ascii(t)
  {}

  /** The flattened trie of an admissible list: an ASCII token has the value of the word it is, and no value if it is
      none of the words. */
  lemma FlatTrieIsDictionary(ws: seq<Word>, t: seq<Byte>, d: int)
    requires Spellable(ws) && Admissible(ws) && Ascii(t)
    ensures Lookup(Build(ws), Masked(t)) == Some(d) <==> exists i :: 0 <= i < |ws| && ws[i].text == t && ws[i].data == d
  {
    AsciiIsUnmasked(t);
    BuildIsDictionary(ws, t);
    AdmissibleDictionary(ws, t);
  }

  lemma {:induction false} NoHighWord(ws: seq<Word>, t: seq<Byte>)
    requires Spellable(ws) && !Ascii(t)
    ensures Dictionary(ws, t) == None
  {
    if ws != [] {
      NoHighWord(ws[..|ws| - 1], t);
    }
  }

  /** For any token: the reader agrees with the word list exactly if the token is ASCII or does not become a word when
      the top bits of its characters are dropped. */
  lemma ReaderAgreesExactly(ws: seq<Word>, t: seq<Byte>)
    requires Spellable(ws)
    ensures Lookup(Build(ws), Masked(t)) == Dictionary(ws, t) <==> Ascii(t) || Dictionary(ws, Masked(t)) == None
  {
    AsciiIsUnmasked(t);
    BuildIsDictionary(ws, Masked(t));
    if !Ascii(t) {
      NoHighWord(ws, t);
    }
  }

  /** The list "add" and the token 225, 100, 100: the reader takes it for the word. */
  lemma HighByteIsAccepted(d: int)
    ensures var ws, t := [Word([97, 100, 100], d)], [225, 100, 100];
      Spellable(ws) && Admissible(ws) && Dictionary(ws, t) == None && Dictionary(ws, Masked(t)) == Some(d)
  {
    var ws, t := [Word([97, 100, 100], d)], [225, 100, 100];
    assert Masked(t) == [97, 100, 100];
    assert Unshadowed(ws, 0);
    NoHighWord(ws, t);
  }
}
