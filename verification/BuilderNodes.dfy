/** The pointer trie in memory (instruction_trie/main.c:15-68): nodes whose entry lists grow in place. */
module BuilderNodes {
  import opened TrieBuilder

  /** An entry is written once, when it is added. */
  datatype Cell = Cell(key: Byte, term: bool, data: int, next: BuilderNode)

  class BuilderNode {
    var ents: seq<Cell>
    ghost var repr: set<BuilderNode>
    ghost var trie: Builder

    ghost predicate Valid()
      reads this, repr
      decreases trie
    {
      && this in repr && |ents| == |trie.ents|
      && (forall i {:trigger ents[i]} :: 0 <= i < |ents| ==> Below(i))
      && (forall i, j {:trigger ents[i], ents[j]} :: 0 <= i < j < |ents| ==> ents[i].next.repr !! ents[j].next.repr)
    }

    /** Entry i is the one of the trie, and its node has the entry's subtrie. */
    ghost predicate Below(i: nat)
      requires |ents| == |trie.ents| && i < |ents|
      reads this, repr
      decreases trie, 0
    {
      var c := ents[i];
      && c.next in repr && c.next.repr <= repr - {this} && c.next.trie == trie.ents[i].next && c.next.Valid()
      && trie.ents[i] == Entry(c.key, c.term, c.data, c.next.trie)
    }

    /** A node from calloc. */
    constructor ()
      ensures Valid() && trie == EMPTY && fresh(repr)
    {
      ents, repr, trie := [], {this}, EMPTY;
    }

    /** trie_builder_insert, instruction_trie/main.c:45-68. */
    method Insert(w: seq<Byte>, data: int)
      requires Valid()
      modifies repr
      ensures Valid() && fresh(repr - old(repr))
      ensures trie == TrieBuilder.Insert(old(trie), w, data)
      decreases |w|
    {
      if w == [] {
        return;
      }
      for i := 0 to |ents|
        invariant forall j :: 0 <= j < i ==> trie.ents[j].key != w[0]
        invariant Valid() && unchanged(repr) && repr == old(repr)
      {
        assert Below(i);
        if ents[i].key == w[0] {
          FindIs(trie.ents, w[0], i);
          InsertBelow(i, w, data);
          return;
        }
      }
      FindIs(trie.ents, w[0], |trie.ents|);
      var nu := new BuilderNode();
      if |w| > 1 {
        nu.Insert(w[1..], data);
      }
      AddEntry(Cell(w[0], |w| == 1, if |w| == 1 then data else 0, nu));
    }

    /** An entry of the node in memory is that of the trie. */
    lemma EntryIs(i: nat)
      requires Valid() && i < |ents|
      ensures |ents| == |trie.ents| && ents[i].next.Valid() && ents[i].next.trie == trie.ents[i].next
      ensures trie.ents[i] == Entry(ents[i].key, ents[i].term, ents[i].data, ents[i].next.trie)
      ensures |ents[i].next.ents| == |trie.ents[i].next.ents|
    {
      assert Below(i);
      ents[i].next.InItsOwn();
    }

    lemma InItsOwn()
      requires Valid()
      ensures this in repr && |ents| == |trie.ents|
    {}

    /** The recursive call for an entry that is there. */
    method InsertBelow(i: nat, w: seq<Byte>, data: int)
      requires Valid() && i < |ents| && w != []
      modifies repr
      ensures Valid() && fresh(repr - old(repr))
      ensures trie == Builder(old(trie).ents[i := old(trie).ents[i].(next := TrieBuilder.Insert(old(trie).ents[i].next, w[1..], data))])
      decreases |w|, 0
    {
      var next := ents[i].next;
      forall j | 0 <= j < |ents| ensures Below(j) && (j != i ==> ents[j].next.repr !! next.repr && ents[j].next in ents[j].next.repr) {
        ents[j].next.InItsOwn();
        assert j < i ==> ents[j].next.repr !! ents[i].next.repr;
        assert i < j ==> ents[i].next.repr !! ents[j].next.repr;
      }
      next.Insert(w[1..], data);
      assert this !in old(next.repr) && ents == old(ents);
      forall j | 0 <= j < |ents| && j != i
        ensures ents[j].next.Valid() && ents[j].next.repr == old(ents[j].next.repr) && ents[j].next.trie == old(ents[j].next.trie)
      {
        assert old(Below(j)) && old(ents[j].next.repr) !! old(next.repr) && ents[j].next in old(ents[j].next.repr);
      }
      repr := repr + next.repr;
      trie := Builder(trie.ents[i := trie.ents[i].(next := next.trie)]);
      forall j | 0 <= j < |ents| ensures Below(j) {
        assert old(Below(j)) && this !in ents[j].next.repr;
        ents[j].next.InItsOwn();
      }
    }

    /** One more entry at the end. */
    method AddEntry(c: Cell)
      requires Valid() && c.next.Valid() && c.next.repr !! repr
      modifies this
      ensures Valid() && repr == old(repr) + c.next.repr
      ensures trie == Builder(old(trie).ents + [Entry(c.key, c.term, c.data, c.next.trie)])
    {
      ents := ents + [c];
      repr := repr + c.next.repr;
      trie := Builder(trie.ents + [Entry(c.key, c.term, c.data, c.next.trie)]);
      forall j | 0 <= j < |ents| ensures Below(j) {
        assert j < |ents| - 1 ==> old(Below(j));
      }
    }
  }

  /** The calls of main (instruction_trie/main.c:226-283). */
  method BuildTrie(ws: seq<Word>) returns (base: BuilderNode)
    ensures base.Valid() && fresh(base.repr) && base.trie == Build(ws)
  {
    base := new BuilderNode();
    for i := 0 to |ws|
      invariant base.Valid() && fresh(base.repr) && base.trie == Build(ws[..i])
    {
      assert ws[..i + 1][..i] == ws[..i];
      base.Insert(ws[i].text, ws[i].data);
    }
    assert ws[..|ws|] == ws;
  }
}
