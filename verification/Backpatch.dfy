/** The label table and the output of each section as functions of the lines read so far, and what each step of the
    emitter does to them. */
module Backpatch {
  import opened Options
  import opened Encoder
  import opened Offsets
  import opened Labels
  import opened Sections

  datatype Waiter = Waiter(fix: nat, sec: nat, jump: bool)

  /** val is -1 while the label has no address; its waiters mean nothing afterwards. */
  datatype Label = Label(val: int, waiters: seq<Waiter>)

  function WaiterOf(e: Event): Waiter
    requires e.stmt.Use?
  {
    Waiter(e.at, e.sec, FormatOf(e.stmt.instr.op) == JType)
  }

  predicate Entry(l: Label, h: seq<Event>, name: string) {
    match Known(h, name)
    case Some(a) => l.val == a
    case None => l.val == -1 && WaitersMatch(l.waiters, h, Pending(h, name))
  }

  predicate WaitersMatch(ws: seq<Waiter>, h: seq<Event>, pending: seq<nat>) {
    && |ws| == |pending|
    && forall j {:trigger ws[j]} {:trigger pending[j]} :: 0 <= j < |ws| ==>
         pending[j] < |h| && h[pending[j]].stmt.Use? && ws[j] == WaiterOf(h[pending[j]])
  }

  ghost predicate Table(labels: map<string, Label>, h: seq<Event>) {
    forall name {:trigger name in labels} {:trigger Met(h, name)} ::
      && (name in labels <==> Met(h, name))
      && (name in labels ==> Entry(labels[name], h, name))
  }

  function Target(h: seq<Event>, k: nat): Option<nat>
    requires k < |h|
  {
    if h[k].stmt.Use? then Resolved(h, k) else None
  }

  /** The outputs hold every line, each at its place, with the address that its label has by now. */
  predicate Output(h: seq<Event>, base: seq<nat>, outs: seq<seq<bv8>>)
    requires |base| == 2 && |outs| == 2
  {
    && LaidOut(h, base)
    && |outs[0]| == Counter(h, 0) && |outs[1]| == Counter(h, 1)
    && forall k {:trigger h[k]} :: 0 <= k < |h| ==> Window(outs[h[k].sec], h[k], Target(h, k))
  }

  // ---------- the table ----------

  lemma MetAfter(h: seq<Event>, e: Event, name: string)
    ensures Met(h + [e], name) <==> Met(h, name) || Mentions(e, name)
  {
    if Met(h, name) {
      var k :| 0 <= k < |h| && Mentions(h[k], name);
      assert (h + [e])[k] == h[k];
    }
    assert (h + [e])[|h|] == e;
    if Met(h + [e], name) {
      var k :| 0 <= k < |h + [e]| && Mentions((h + [e])[k], name);
      assert k < |h| ==> h[k] == (h + [e])[k];
    }
  }

  lemma {:induction false} UnmetIsUnknown(h: seq<Event>, name: string)
    requires !Met(h, name)
    ensures Known(h, name) == None && Pending(h, name) == []
  {
    if h != [] {
      assert (h[..|h| - 1] + [h[|h| - 1]]) == h;
      MetAfter(h[..|h| - 1], h[|h| - 1], name);
      UnmetIsUnknown(h[..|h| - 1], name);
    }
  }

  lemma EntryAfter(l: Label, h: seq<Event>, e: Event, name: string)
    requires Entry(l, h, name) && Met(h, name)
    requires !Defines(e, name)
    requires Uses(e, name) ==> Known(h, name).Some?
    ensures Entry(l, h + [e], name)
  {
    assert (h + [e])[..|h|] == h;
  }

  /** A line that has no label leaves the table right. */
  lemma TableAfterOther(labels: map<string, Label>, h: seq<Event>, e: Event)
    requires Table(labels, h) && !e.stmt.Use? && !e.stmt.Define?
    ensures Table(labels, h + [e])
  {
    forall name
      ensures name in labels <==> Met(h + [e], name)
      ensures name in labels ==> Entry(labels[name], h + [e], name)
    {
      MetAfter(h, e, name);
      if name in labels { EntryAfter(labels[name], h, e, name); }
    }
  }

  /** The table after emitter_label_get_or_add_waiter. */
  function WithWaiter(labels: map<string, Label>, name: string, w: Waiter): map<string, Label> {
    if name !in labels then labels[name := Label(-1, [w])]
    else if labels[name].val < 0 then labels[name := Label(labels[name].val, labels[name].waiters + [w])]
    else labels
  }

  lemma TableAfterUse(labels: map<string, Label>, h: seq<Event>, e: Event)
    requires Table(labels, h) && e.stmt.Use?
    ensures Table(WithWaiter(labels, e.stmt.name, WaiterOf(e)), h + [e])
  {
    var after := WithWaiter(labels, e.stmt.name, WaiterOf(e));
    forall name
      ensures name in after <==> Met(h + [e], name)
      ensures name in after ==> Entry(after[name], h + [e], name)
    {
      MetAfter(h, e, name);
      assert name in labels <==> Met(h, name);
      if name != e.stmt.name {
        if name in labels { EntryAfter(labels[name], h, e, name); }
      } else {
        assert (h + [e])[..|h|] == h && (h + [e])[|h|] == e;
        if name in labels && Known(h, name).Some? {
          EntryAfter(labels[name], h, e, name);
        } else {
          if name !in labels { UnmetIsUnknown(h, name); }
          PendingExactly(h, name);
        }
      }
    }
  }

  /** A first mention that is a definition stores the address; a later one leaves the value as it is, and no waiters. */
  function WithDefinition(labels: map<string, Label>, name: string, addr: nat): map<string, Label> {
    if name !in labels then labels[name := Label(addr, [])]
    else labels[name := Label(labels[name].val, [])]
  }

  lemma TableAfterDefine(labels: map<string, Label>, h: seq<Event>, e: Event)
    requires Table(labels, h) && e.stmt.Define?
    requires Known(h, e.stmt.name).None?
    ensures Table(WithDefinition(labels, e.stmt.name, e.addr), h + [e])
  {
    var after := WithDefinition(labels, e.stmt.name, e.addr);
    forall name
      ensures name in after <==> Met(h + [e], name)
      ensures name in after ==> Entry(after[name], h + [e], name)
    {
      MetAfter(h, e, name);
      assert name in labels <==> Met(h, name);
      assert (h + [e])[..|h|] == h && (h + [e])[|h|] == e;
      if name != e.stmt.name && name in labels { EntryAfter(labels[name], h, e, name); }
    }
  }

  lemma TableSays(labels: map<string, Label>, h: seq<Event>, name: string)
    requires Table(labels, h)
    ensures Known(h, name).Some? <==> name in labels && labels[name].val >= 0
    ensures Known(h, name).Some? ==> labels[name].val == Known(h, name).value
    ensures name in labels && Known(h, name).None? ==>
              labels[name].val == -1 && WaitersMatch(labels[name].waiters, h, Pending(h, name))
  {
    assert name in labels <==> Labels.Met(h, name);
    if name !in labels { UnmetIsUnknown(h, name); }
  }

  lemma DataPiece(out: seq<bv8>, e: Event, target: Option<nat>)
    requires e.stmt.Data?
    ensures out + e.stmt.bytes + Zeros(e.stmt.pad) == out + Piece(e, target)
    ensures out + (e.stmt.bytes + Zeros(e.stmt.pad)) == out + Piece(e, target)
  {}

  lemma UsePiece(e: Event, target: Option<nat>)
    requires e.stmt.Use?
    ensures Piece(e, target) == Bytes(Encode(Aimed(e.stmt.instr, e.addr, target)))
  {}

  lemma UseTarget(h: seq<Event>, e: Event)
    requires e.stmt.Use?
    ensures Target(h + [e], |h|) == Known(h, e.stmt.name)
  {
    assert (h + [e])[..|h|] == h;
  }

  // ---------- the output ----------

  lemma TargetAfter(h: seq<Event>, e: Event, k: nat)
    requires k < |h|
    ensures Target(h + [e], k)
         == if h[k].stmt.Use? && Resolved(h, k).None? && Defines(e, h[k].stmt.name) then Some(e.addr) else Target(h, k)
  {
    assert (h + [e])[..|h|] == h && (h + [e])[k] == h[k];
  }

  lemma LaidOutAfter(h: seq<Event>, base: seq<nat>, e: Event)
    requires |base| == 2 && LaidOut(h, base)
    requires e.sec < 2 && e.at == Counter(h, e.sec) && e.addr == base[e.sec] + e.at
    ensures LaidOut(h + [e], base)
    ensures forall s :: Counter(h + [e], s) == Counter(h, s) + if e.sec == s then SizeOf(e.stmt) else 0
  {
    var g := h + [e];
    assert g[..|h|] == h;
    forall k | 0 <= k < |g|
      ensures g[k].sec < 2 && g[k].at == Counter(g[..k], g[k].sec) && g[k].addr == base[g[k].sec] + g[k].at
    {
      if k < |h| {
        assert g[k] == h[k] && g[..k] == h[..k];
      }
    }
  }

  lemma NewWindow(out: seq<bv8>, e: Event, target: Option<nat>)
    requires e.at == |out|
    ensures Window(out + Piece(e, target), e, target)
  {}

  lemma OldWindow(out: seq<bv8>, more: seq<bv8>, e: Event, target: Option<nat>)
    requires Window(out, e, target)
    ensures Window(out + more, e, target)
  {
    assert (out + more)[..|out|] == out;
    WindowOfPrefix(out + more, |out|, e, target);
  }

  /** A line that is put out at the end of its section. */
  lemma OutputAfterAppend(h: seq<Event>, base: seq<nat>, outs: seq<seq<bv8>>, e: Event)
    requires |base| == 2 && |outs| == 2 && Output(h, base, outs)
    requires e.sec < 2 && e.at == |outs[e.sec]| && e.addr == base[e.sec] + e.at && !e.stmt.Define?
    ensures Output(h + [e], base, outs[e.sec := outs[e.sec] + Piece(e, Target(h + [e], |h|))])
  {
    hide Piece, SizeOf, Window, LaidOut, Counter;
    var g := h + [e];
    var piece := Piece(e, Target(g, |h|));
    var after := outs[e.sec := outs[e.sec] + piece];
    CounterOf(h, base, outs, e);
    LaidOutAfter(h, base, e);
    NewWindow(outs[e.sec], e, Target(g, |h|));
    forall k | 0 <= k < |g|
      ensures g[k].sec < 2 && Window(after[g[k].sec], g[k], Target(g, k))
    {
      if k < |h| {
        assert g[k] == h[k];
        SectionOf(h, base, k);
        TargetAfter(h, e, k);
        OldWindow(outs[h[k].sec], piece, h[k], Target(h, k));
      }
    }
  }

  lemma CounterOf(h: seq<Event>, base: seq<nat>, outs: seq<seq<bv8>>, e: Event)
    requires |base| == 2 && |outs| == 2 && Output(h, base, outs) && e.sec < 2
    ensures |outs[e.sec]| == Counter(h, e.sec)
  {
    hide Window, Counter, LaidOut;
  }

  lemma SectionOf(h: seq<Event>, base: seq<nat>, k: nat)
    requires |base| == 2 && LaidOut(h, base) && k < |h|
    ensures h[k].sec < 2
  {}

  /** Line k's address when the first j waiters have been served with a. */
  function Serving(h: seq<Event>, pending: seq<nat>, j: nat, a: nat, k: nat): Option<nat>
    requires k < |h| && j <= |pending|
  {
    if k in pending[..j] then Some(a) else Target(h, k)
  }

  /** The outputs while emitter_label_add serves the waiters. */
  predicate Served(h: seq<Event>, outs: seq<seq<bv8>>, pending: seq<nat>, j: nat, a: nat)
    requires |outs| == 2 && j <= |pending|
  {
    forall k {:trigger h[k]} :: 0 <= k < |h| ==>
      h[k].sec < 2 && Window(outs[h[k].sec], h[k], Serving(h, pending, j, a, k))
  }

  /** Before the first waiter is served; with no waiters, that is all. */
  lemma OutputServed(h: seq<Event>, base: seq<nat>, outs: seq<seq<bv8>>, pending: seq<nat>, a: nat)
    requires |base| == |outs| == 2 && Output(h, base, outs)
    ensures LaidOut(h, base) && |outs[0]| == Counter(h, 0) && |outs[1]| == Counter(h, 1)
    ensures Served(h, outs, pending, 0, a)
  {
    hide Window, Counter;
  }

  lemma PlaceOf(h: seq<Event>, base: seq<nat>, i: nat)
    requires |base| == 2 && LaidOut(h, base) && i < |h|
    ensures h[i].sec < 2 && h[i].addr == base[h[i].sec] + h[i].at
  {}

  lemma NewLabel(labels: map<string, Label>, h: seq<Event>, base: seq<nat>, outs: seq<seq<bv8>>, name: string, a: nat)
    requires Table(labels, h) && name !in labels
    requires |base| == |outs| == 2 && Output(h, base, outs)
    ensures Pending(h, name) == [] && Served(h, outs, [], 0, a)
  {
    assert !Labels.Met(h, name);
    UnmetIsUnknown(h, name);
    OutputServed(h, base, outs, [], a);
  }

  lemma DefinitionWindow(out: seq<bv8>, e: Event, target: Option<nat>)
    requires e.stmt.Define? && e.at <= |out|
    ensures Window(out, e, target)
  {}

  lemma ServedAll(h: seq<Event>, base: seq<nat>, outs: seq<seq<bv8>>, e: Event)
    requires |base| == 2 && |outs| == 2
    requires LaidOut(h, base) && |outs[0]| == Counter(h, 0) && |outs[1]| == Counter(h, 1)
    requires e.stmt.Define? && e.sec < 2 && e.at == Counter(h, e.sec) && e.addr == base[e.sec] + e.at
    requires var pending := Pending(h, e.stmt.name); Served(h, outs, pending, |pending|, e.addr)
    ensures Output(h + [e], base, outs)
  {
    hide Window, Counter, LaidOut, Pending, Resolved;
    var g, pending := h + [e], Pending(h, e.stmt.name);
    LaidOutAfter(h, base, e);
    PendingExactly(h, e.stmt.name);
    assert pending[..|pending|] == pending;
    forall k | 0 <= k < |g|
      ensures g[k].sec < 2 && Window(outs[g[k].sec], g[k], Target(g, k))
    {
      if k == |h| {
        DefinitionWindow(outs[e.sec], e, Target(g, k));
      } else {
        assert g[k] == h[k];
        TargetAfter(h, e, k);
        assert k in pending <==> Waits(h, k, e.stmt.name);
        assert Window(outs[h[k].sec], h[k], Serving(h, pending, |pending|, e.addr, k));
      }
    }
  }

  /** Rewriting a waiting word's immediate gives the word that was encoded with the address known. */
  lemma PatchedWord(i: Instr, addr: nat, a: nat)
    requires Valid(i) && TakesLabel(i.op) && i.imm == 0
    ensures SetImm(FormatOf(i.op) == JType, Encode(i), ToU32(a - addr)) == Encode(Aimed(i, addr, Some(a)))
  {
    hide ToU32, Opcode, Func3;
    NoImm(BBase(Opcode(i.op), Func3(i.op), i.rs1, i.rs2));
    NoImm(JBase(Opcode(i.op), i.rd));
  }

  lemma NoImm(w: bv32)
    ensures SetBImm(w, 0) == w && SetJImm(w, 0) == w
  {}

  /** What the loop of emitter_label_add writes for one waiter. */
  function Patched(out: seq<bv8>, w: Waiter, offset: bv32): seq<bv8>
    requires w.fix + 4 <= |out|
  {
    Splice(out, w.fix, Bytes(SetImm(w.jump, FromBytes(out[w.fix..w.fix + 4]), offset)))
  }

  lemma PatchHere(out: seq<bv8>, e: Event, a: nat)
    requires Window(out, e, None) && e.stmt.Use? && Parsed(e.stmt)
    ensures Window(Patched(out, WaiterOf(e), ToU32(a - e.addr)), e, Some(a))
  {
    var i := e.stmt.instr;
    WordOfBytes(Encode(i));
    PatchedWord(i, e.addr, a);
    PatchWindow(out, e, Some(a));
  }

  lemma PatchWindow(out: seq<bv8>, e: Event, target: Option<nat>)
    requires e.stmt.Use? && e.at + 4 <= |out|
    ensures Window(Splice(out, e.at, Piece(e, target)), e, target)
  {
    var piece := Piece(e, target);
    assert Splice(out, e.at, piece)[e.at..e.at + 4] == piece;
  }

  lemma PatchElsewhere(out: seq<bv8>, at: nat, piece: seq<bv8>, e: Event, target: Option<nat>)
    requires Window(out, e, target) && at + |piece| <= |out|
    requires at + |piece| <= e.at || e.at + SizeOf(e.stmt) <= at
    ensures Window(Splice(out, at, piece), e, target)
  {
    var n := SizeOf(e.stmt);
    assert Splice(out, at, piece)[e.at..e.at + n] == out[e.at..e.at + n];
  }

  lemma WaiterSize(e: Event)
    requires e.stmt.Use?
    ensures SizeOf(e.stmt) == 4 && WaiterOf(e).fix == e.at && WaiterOf(e).sec == e.sec
  {}

  lemma WindowFits(out: seq<bv8>, e: Event, target: Option<nat>)
    requires Window(out, e, target)
    ensures e.at + SizeOf(e.stmt) <= |out|
  {}

  /** Lines that do not overlap: another line of the same section ends before this one or starts after it. */
  lemma EitherSide(h: seq<Event>, base: seq<nat>, i: nat, k: nat)
    requires |base| == 2 && LaidOut(h, base) && i < |h| && k < |h| && i != k && h[i].sec == h[k].sec
    ensures h[i].at + SizeOf(h[i].stmt) <= h[k].at || h[k].at + SizeOf(h[k].stmt) <= h[i].at
  {
    if i < k { Apart(h, base, i, k); } else { Apart(h, base, k, i); }
  }

  lemma ServingNext(h: seq<Event>, pending: seq<nat>, j: nat, a: nat, k: nat)
    requires k < |h| && j < |pending|
    ensures Serving(h, pending, j + 1, a, k) == if k == pending[j] then Some(a) else Serving(h, pending, j, a, k)
  {
    assert pending[..j + 1] == pending[..j] + [pending[j]];
  }

  /** Line pending[j] still has no address when j waiters have been served. */
  lemma NotYetServed(h: seq<Event>, name: string, j: nat, a: nat)
    requires j < |Pending(h, name)|
    ensures var i := Pending(h, name)[j];
      i < |h| && Uses(h[i], name) && Serving(h, Pending(h, name), j, a, i) == None
  {
    var pending := Pending(h, name);
    PendingExactly(h, name);
    assert pending[j] in pending && Waits(h, pending[j], name);
  }

  /** One round of the loop. */
  lemma ServeOne(h: seq<Event>, base: seq<nat>, outs: seq<seq<bv8>>, name: string, j: nat, a: nat)
    requires |base| == 2 && |outs| == 2 && LaidOut(h, base)
    requires forall k {:trigger h[k]} :: 0 <= k < |h| ==> Parsed(h[k].stmt)
    requires j < |Pending(h, name)| && Served(h, outs, Pending(h, name), j, a)
    ensures var i := Pending(h, name)[j];
      && i < |h| && h[i].stmt.Use? && h[i].sec < 2 && h[i].at + 4 <= |outs[h[i].sec]|
      && Served(h, outs[h[i].sec := Patched(outs[h[i].sec], WaiterOf(h[i]), ToU32(a - h[i].addr))],
                Pending(h, name), j + 1, a)
  {
    hide Window, Counter, LaidOut, Pending, Resolved, Parsed, Serving, Splice, SizeOf, SetImm, ToU32, WaiterOf;
    var pending := Pending(h, name);
    NotYetServed(h, name, j, a);
    var i := pending[j];
    var e := h[i];
    WaiterSize(e);
    WindowFits(outs[e.sec], e, None);
    PatchHere(outs[e.sec], e, a);
    var after := outs[e.sec := Patched(outs[e.sec], WaiterOf(e), ToU32(a - e.addr))];
    forall k | 0 <= k < |h|
      ensures h[k].sec < 2 && Window(after[h[k].sec], h[k], Serving(h, pending, j + 1, a, k))
    {
      ServingNext(h, pending, j, a, k);
      if k != i && h[k].sec == e.sec {
        EitherSide(h, base, i, k);
        PatchElsewhere(outs[e.sec], e.at, Bytes(SetImm(WaiterOf(e).jump, FromBytes(outs[e.sec][e.at..e.at + 4]), ToU32(a - e.addr))),
                       h[k], Serving(h, pending, j, a, k));
      }
    }
  }

  // ---------- the buffers ----------

  /** Each word that takes a label lies wholly in its section's file or wholly in its buffer. */
  predicate Whole(h: seq<Event>, flushed: seq<nat>)
    requires |flushed| == 2
  {
    forall k {:trigger h[k]} :: 0 <= k < |h| && h[k].stmt.Use? && h[k].sec < 2 ==>
      h[k].at + 4 <= flushed[h[k].sec] || flushed[h[k].sec] <= h[k].at
  }

  /** A flush takes everything along that was put out before. */
  lemma WholeAfter(h: seq<Event>, base: seq<nat>, outs: seq<seq<bv8>>, e: Event, before: seq<nat>, flushed: seq<nat>)
    requires |base| == |outs| == |before| == |flushed| == 2 && Output(h, base, outs) && Whole(h, before)
    requires forall s :: 0 <= s < 2 ==> flushed[s] == before[s] || |outs[s]| <= flushed[s]
    requires e.stmt.Use? && e.sec < 2 ==> flushed[e.sec] <= e.at
    ensures Whole(h + [e], flushed)
  {
    hide Window, LaidOut, Counter, Target;
    forall k | 0 <= k < |h| && h[k].stmt.Use? && h[k].sec < 2
      ensures h[k].at + 4 <= flushed[h[k].sec] || flushed[h[k].sec] <= h[k].at
    {
      WindowFits(outs[h[k].sec], h[k], Target(h, k));
      WaiterSize(h[k]);
    }
  }

  lemma WholeAfterDefine(h: seq<Event>, e: Event, flushed: seq<nat>)
    requires |flushed| == 2 && Whole(h, flushed) && e.stmt.Define?
    ensures Whole(h + [e], flushed)
  {}
}
