/** The pointer trie that the trie compiler builds from a word list (instruction_trie/main.c:16-68). */
module TrieBuilder {
  import opened Options

  type Byte = x: nat | x < 256

  datatype Entry = Entry(key: Byte, term: bool, data: int, next: Builder)
  datatype Builder = Builder(ents: seq<Entry>)

  const EMPTY := Builder([])

  function Find(ents: seq<Entry>, c: Byte): (i: nat)
    ensures i <= |ents| && (i < |ents| ==> ents[i].key == c)
    ensures forall j :: 0 <= j < i ==> ents[j].key != c
  {
    if ents == [] || ents[0].key == c then 0 else 1 + Find(ents[1..], c)
  }

  /** trie_builder_insert, instruction_trie/main.c:45-68. */
  function Insert(b: Builder, w: seq<Byte>, data: int): Builder
    decreases |w|
  {
    if w == [] then b else
      var i := Find(b.ents, w[0]);
      if i < |b.ents| then
        Builder(b.ents[i := b.ents[i].(next := Insert(b.ents[i].next, w[1..], data))])
      else if |w| > 1 then
        Builder(b.ents + [Entry(w[0], false, 0, Insert(EMPTY, w[1..], data))])
      else
        Builder(b.ents + [Entry(w[0], true, data, EMPTY)])
  }

  /** What the trie says about a word. */
  function Lookup(b: Builder, w: seq<Byte>): Option<int>
    decreases |w|
  {
    if w == [] then None else
      var i := Find(b.ents, w[0]);
      if i == |b.ents| then None
      else if |w| == 1 then (if b.ents[i].term then Some(b.ents[i].data) else None)
      else Lookup(b.ents[i].next, w[1..])
  }

  /** w leads along entries of the trie. */
  predicate HasPath(b: Builder, w: seq<Byte>)
    decreases |w|
  {
    w == [] ||
    var i := Find(b.ents, w[0]);
    i < |b.ents| && HasPath(b.ents[i].next, w[1..])
  }

  lemma FindIs(ents: seq<Entry>, c: Byte, i: nat)
    requires i <= |ents| && (i < |ents| ==> ents[i].key == c)
    requires forall j :: 0 <= j < i ==> ents[j].key != c
    ensures Find(ents, c) == i
  {}

  lemma FindUpdated(ents: seq<Entry>, i: nat, e: Entry, c: Byte)
    requires i < |ents| && e.key == ents[i].key
    ensures Find(ents[i := e], c) == Find(ents, c)
  {
    FindIs(ents[i := e], c, Find(ents, c));
  }

  lemma FindAppended(ents: seq<Entry>, e: Entry, c: Byte)
    ensures Find(ents + [e], c) == if Find(ents, c) < |ents| then Find(ents, c)
                                   else if e.key == c then |ents| else |ents| + 1
  {
    FindIs(ents + [e], c, if Find(ents, c) < |ents| then Find(ents, c) else if e.key == c then |ents| else |ents| + 1);
  }

  lemma {:induction false} EmptyHasNothing(w: seq<Byte>)
    ensures Lookup(EMPTY, w) == None && (HasPath(EMPTY, w) <==> w == [])
  {}

  /** Inserting a word adds exactly the prefixes of the word to the paths. */
  lemma {:induction false} InsertPath(b: Builder, w: seq<Byte>, data: int, v: seq<Byte>)
    ensures HasPath(Insert(b, w, data), v) <==> HasPath(b, v) || v <= w
    decreases |w|
  {
    if w != [] && v != [] {
      var i := Find(b.ents, w[0]);
      if i < |b.ents| {
        var next := Insert(b.ents[i].next, w[1..], data);
        FindUpdated(b.ents, i, b.ents[i].(next := next), v[0]);
        InsertPath(b.ents[i].next, w[1..], data, v[1..]);
      } else {
        var e := if |w| > 1 then Entry(w[0], false, 0, Insert(EMPTY, w[1..], data)) else Entry(w[0], true, data, EMPTY);
        FindAppended(b.ents, e, v[0]);
        InsertPath(EMPTY, w[1..], data, v[1..]);
        EmptyHasNothing(v[1..]);
      }
      PrefixStep(v, w);
    }
  }

  lemma PrefixStep(v: seq<Byte>, w: seq<Byte>)
    requires v != [] && w != []
    ensures v <= w <==> v[0] == w[0] && v[1..] <= w[1..]
  {
    if v[0] == w[0] && v[1..] <= w[1..] {
      assert v == [v[0]] + v[1..] && w == [w[0]] + w[1..];
    }
  }

  /** Inserting a word binds it if it is not yet a path, that is, not a prefix of an earlier word; otherwise nothing
      changes. */
  lemma {:induction false} InsertLookup(b: Builder, w: seq<Byte>, data: int, v: seq<Byte>)
    ensures Lookup(Insert(b, w, data), v) == if v == w && !HasPath(b, w) then Some(data) else Lookup(b, v)
    decreases |w|
  {
    if w != [] && v != [] {
      var i := Find(b.ents, w[0]);
      assert v == w <==> v[0] == w[0] && v[1..] == w[1..] by {
        assert v == [v[0]] + v[1..] && w == [w[0]] + w[1..];
      }
      if i < |b.ents| {
        var next := Insert(b.ents[i].next, w[1..], data);
        FindUpdated(b.ents, i, b.ents[i].(next := next), v[0]);
        InsertLookup(b.ents[i].next, w[1..], data, v[1..]);
      } else {
        var e := if |w| > 1 then Entry(w[0], false, 0, Insert(EMPTY, w[1..], data)) else Entry(w[0], true, data, EMPTY);
        FindAppended(b.ents, e, v[0]);
        InsertLookup(EMPTY, w[1..], data, v[1..]);
        EmptyHasNothing(v[1..]);
        EmptyHasNothing(w[1..]);
      }
    }
  }

  // ---------- word lists ----------

  datatype Word = Word(text: seq<Byte>, data: int)

  /** The calls of main, one word after the other (instruction_trie/main.c:226-283). */
  function Build(ws: seq<Word>): Builder {
    if ws == [] then EMPTY else
      var n := |ws| - 1;
      Insert(Build(ws[..n]), ws[n].text, ws[n].data)
  }

  /** Word i is not a prefix of an earlier word. */
  predicate Unshadowed(ws: seq<Word>, i: nat)
    requires i < |ws|
  {
    ws[i].text != [] && forall j :: 0 <= j < i ==> !(ws[i].text <= ws[j].text)
  }

  predicate Admissible(ws: seq<Word>) {
    forall i :: 0 <= i < |ws| ==> Unshadowed(ws, i)
  }

  /** The finite map that a word list stands for when shadowed words are dropped. */
  function Dictionary(ws: seq<Word>, v: seq<Byte>): Option<int> {
    if ws == [] then None else
      var n := |ws| - 1;
      if ws[n].text == v && Unshadowed(ws, n) then Some(ws[n].data) else Dictionary(ws[..n], v)
  }

  lemma {:induction false} BuildPath(ws: seq<Word>, v: seq<Byte>)
    requires v != []
    ensures HasPath(Build(ws), v) <==> exists j :: 0 <= j < |ws| && v <= ws[j].text
  {
    if ws != [] {
      var n := |ws| - 1;
      BuildPath(ws[..n], v);
      InsertPath(Build(ws[..n]), ws[n].text, ws[n].data, v);
      assert forall j | 0 <= j < n :: ws[..n][j] == ws[j];
    }
  }

  /** The pointer trie of any word list is its dictionary. */
  lemma {:induction false} BuildIsDictionary(ws: seq<Word>, v: seq<Byte>)
    ensures Lookup(Build(ws), v) == Dictionary(ws, v)
  {
    if ws != [] {
      var n := |ws| - 1;
      BuildIsDictionary(ws[..n], v);
      InsertLookup(Build(ws[..n]), ws[n].text, ws[n].data, v);
      if ws[n].text != [] {
        BuildPath(ws[..n], ws[n].text);
        assert forall j | 0 <= j < n :: ws[..n][j] == ws[j];
      }
    }
  }

  /** In an admissible list every word has its own value and no other word has one. */
  lemma {:induction false} AdmissibleDictionary(ws: seq<Word>, v: seq<Byte>)
    requires Admissible(ws)
    ensures forall i :: 0 <= i < |ws| && ws[i].text == v ==> Dictionary(ws, v) == Some(ws[i].data)
    ensures (forall i :: 0 <= i < |ws| ==> ws[i].text != v) ==> Dictionary(ws, v) == None
  {
    if ws != [] {
      var n := |ws| - 1;
      assert Unshadowed(ws, n);
      forall i | 0 <= i < n ensures Unshadowed(ws[..n], i) {
        assert Unshadowed(ws, i);
      }
      AdmissibleDictionary(ws[..n], v);
      forall i | 0 <= i < |ws| && ws[i].text == v ensures Dictionary(ws, v) == Some(ws[i].data) {
        if i < n {
          assert ws[..n][i] == ws[i];
          assert ws[n].text <= ws[i].text ==> false;
        }
      }
    }
  }

  /** Among lists without repeated words, exactly the admissible ones give every word its own value. */
  lemma {:induction false} AdmissibleExactly(ws: seq<Word>)
    requires forall i, j :: 0 <= i < j < |ws| ==> ws[i].text != ws[j].text
    ensures (forall i :: 0 <= i < |ws| ==> Dictionary(ws, ws[i].text) == Some(ws[i].data)) <==> Admissible(ws)
  {
    if Admissible(ws) {
      forall i | 0 <= i < |ws| ensures Dictionary(ws, ws[i].text) == Some(ws[i].data) {
        AdmissibleDictionary(ws, ws[i].text);
      }
    } else {
      var i :| 0 <= i < |ws| && !Unshadowed(ws, i);
      ShadowedIsDropped(ws, i);
    }
  }

  lemma UnshadowedPrefix(ws: seq<Word>, n: nat, i: nat)
    requires i < n <= |ws|
    ensures Unshadowed(ws[..n], i) == Unshadowed(ws, i)
  {
    assert forall j | 0 <= j < n :: ws[..n][j] == ws[j];
  }

  /** A shadowed word that occurs once is not found. */
  lemma {:induction false} ShadowedIsDropped(ws: seq<Word>, i: nat)
    requires i < |ws| && !Unshadowed(ws, i)
    requires forall j :: 0 <= j < |ws| && j != i ==> ws[j].text != ws[i].text
    ensures Dictionary(ws, ws[i].text) == None
  {
    var n := |ws| - 1;
    if i < n {
      assert ws[..n][i] == ws[i];
      UnshadowedPrefix(ws, n, i);
      ShadowedIsDropped(ws[..n], i);
    } else {
      NotListed(ws[..n], ws[i].text);
    }
  }

  lemma {:induction false} NotListed(ws: seq<Word>, v: seq<Byte>)
    requires forall j :: 0 <= j < |ws| ==> ws[j].text != v
    ensures Dictionary(ws, v) == None
  {
    if ws != [] {
      NotListed(ws[..|ws| - 1], v);
    }
  }

  /** "addi" before "add": the second word is not in the trie. */
  lemma PrefixIsLost(d: int, e: int)
    ensures var ws := [Word([97, 100, 100, 105], d), Word([97, 100, 100], e)];
      Lookup(Build(ws), [97, 100, 100]) == None && Lookup(Build(ws), [97, 100, 100, 105]) == Some(d)
  {
    var ws := [Word([97, 100, 100, 105], d), Word([97, 100, 100], e)];
    assert ws[1].text <= ws[0].text;
    ShadowedIsDropped(ws, 1);
    BuildIsDictionary(ws, [97, 100, 100]);
    BuildIsDictionary(ws, [97, 100, 100, 105]);
    assert ws[..1] == [ws[0]] && Unshadowed(ws[..1], 0);
  }
}
