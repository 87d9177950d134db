/** The emitter (emitter.h:47-57, emitter.c:24-135) and what parse_line hands to it (parser.c:368-556). */
module Emitter {
  import opened Options
  import opened Encoder
  import opened Offsets
  import opened Labels
  import opened Programs
  import opened Runs
  import opened Sections
  import opened Backpatch

  class Emitter {
    const text: Section
    const data: Section
    var labels: map<string, Label>
    var current: nat
    ghost var lines: seq<Event>

    ghost predicate Distinct() {
      text != data && text.buf != data.buf
    }

    ghost predicate SectionsValid()
      reads this, text, data
    {
      text.Valid() && data.Valid() && current < 2
    }

    ghost function Outs(): (outs: seq<seq<bv8>>)
      reads this, text, data, text.buf, data.buf
      requires SectionsValid()
      ensures |outs| == 2 && outs[0] == text.Out() && outs[1] == data.Out()
    {
      [text.Out(), data.Out()]
    }

    ghost function Base(): (base: seq<nat>)
      ensures |base| == 2
    {
      [text.vaddr, data.vaddr]
    }

    function Here(): (s: Section)
      reads this
    {
      if current == 0 then text else data
    }

    /** How many bytes of each section have left its buffer. */
    ghost function Flushed(): (flushed: seq<nat>)
      reads text, data
      ensures |flushed| == 2
    {
      [|text.file|, |data.file|]
    }

    /** How many bytes are in each section's buffer. */
    ghost function Lens(): (lens: seq<nat>)
      reads text, data
      ensures |lens| == 2
    {
      [text.len, data.len]
    }

    /** The same after a line that does not fill the buffer. */
    ghost function LensAfter(st: Statement): (lens: seq<nat>)
      reads this, text, data
      requires SectionsValid()
      ensures |lens| == 2
    {
      if Fills(Here().len, st) then Lens() else Lens()[current := LenAfter(Here().len, st)]
    }

    ghost predicate Valid()
      reads this, text, data, text.buf, data.buf
    {
      && Distinct() && SectionsValid()
      && (forall k {:trigger lines[k]} :: 0 <= k < |lines| ==> Parsed(lines[k].stmt))
      && Table(labels, lines)
      && Output(lines, Base(), Outs())
      && Whole(lines, Flushed())
    }

    constructor (textAddr: nat, dataAddr: nat)
      ensures Valid() && lines == [] && current == 0 && Lens() == [0, 0] && fresh(text) && fresh(data) && fresh(text.buf) && fresh(data.buf)
      ensures Base() == [textAddr, dataAddr]
    {
      text := new Section(textAddr);
      data := new Section(dataAddr);
      labels, current, lines := map[], 0, [];
    }

    /** The line that is about to be read, with the place it gets. */
    ghost function Upcoming(st: Statement): Event
      reads this, text, data
    {
      Event(st, current, Here().pos, Here().vaddr + Here().pos)
    }

    /** Its bytes, with the address that its label has so far. */
    ghost function PieceNow(st: Statement): (piece: seq<bv8>)
      reads this, text, data
      ensures |piece| == SizeOf(st)
    {
      Piece(Upcoming(st), if st.Use? then Known(lines, st.name) else None)
    }

    /** What is put out of them when the buffer fills up. */
    ghost function KeptNow(st: Statement): (kept: seq<bv8>)
      reads this, text, data
      requires SectionsValid()
    {
      match st
      case Data(bytes, pad) => Kept(Here().len, bytes) + Zeros(pad)
      case Use(_, _) => Kept(Here().len, PieceNow(st))
      case Operation(i) => Kept(Here().len, Bytes(Encode(i)))
      case _ => PieceNow(st)
    }

    lemma KeptIsLess(st: Statement)
      requires SectionsValid() && Fills(Here().len, st)
      ensures |KeptNow(st)| < SizeOf(st)
    {
      hide Piece, Bytes, Encode;
      LostExactly(Here().len, Passed(st));
    }

    /** Nothing but the line's bytes was put out, and the table is right. */
    lemma Close(h: seq<Event>, e: Event, outs: seq<seq<bv8>>, flushed: seq<nat>)
      requires Distinct() && SectionsValid() && |outs| == |flushed| == 2
      requires lines == h + [e] && Parsed(e.stmt) && !e.stmt.Define?
      requires forall k {:trigger h[k]} :: 0 <= k < |h| ==> Parsed(h[k].stmt)
      requires Table(labels, h + [e]) && Output(h, Base(), outs) && Whole(h, flushed)
      requires e.sec < 2 && e.at == |outs[e.sec]| && e.addr == Base()[e.sec] + e.at
      requires Outs() == outs[e.sec := outs[e.sec] + Piece(e, Target(h + [e], |h|))]
      requires forall s :: 0 <= s < 2 ==> Flushed()[s] == flushed[s] || |outs[s]| <= Flushed()[s]
      requires e.stmt.Use? ==> Flushed()[e.sec] <= e.at
      ensures Valid()
    {
      hide Table, Output, Whole, Parsed, Piece, Target;
      OutputAfterAppend(h, Base(), outs, e);
      WholeAfter(h, Base(), outs, e, flushed, Flushed());
    }

    // ---------- lines without a label ----------

    /** .text and .data. */
    method Select(sec: nat)
      requires Valid() && sec < 2
      modifies this
      ensures Valid() && lines == old(lines + [Upcoming(Section(sec))]) && current == sec
    {
      hide Table, Output, Whole, Target;
      ghost var h, e, outs := lines, Upcoming(Section(sec)), Outs();
      TableAfterOther(labels, lines, e);
      lines := lines + [e];
      current := sec;
      assert outs[e.sec] + Piece(e, Target(h + [e], |h|)) == outs[e.sec];
      Close(h, e, outs, Flushed());
    }

    /** .space. */
    method Reserve(n: nat)
      requires Valid()
      modifies this`lines, text, data, text.buf, data.buf
      ensures Valid() && lines == old(lines + [Upcoming(Space(n))])
      ensures Lens() == old(LensAfter(Space(n)))
      ensures Outs()[1 - current] == old(Outs()[1 - current]) && old(Outs()[current]) <= Outs()[current]
      ensures |Outs()[current]| == old(|Outs()[current]|) + n
      ensures forall k :: old(|Outs()[current]|) <= k < |Outs()[current]| ==> Outs()[current][k] == 0
    {
      hide Table, Output, Whole, Target;
      ghost var h, e, outs, flushed := lines, Upcoming(Space(n)), Outs(), Flushed();
      TableAfterOther(labels, lines, e);
      Here().Advance(n);
      lines := lines + [e];
      Close(h, e, outs, flushed);
    }

    /** Data directives, and the padding after them. */
    method EmitData(bytes: seq<bv8>, pad: nat)
      requires Valid()
      modifies this`lines, text, data, text.buf, data.buf
      ensures SectionsValid()
      ensures Outs() == old(Outs()[current := Outs()[current] + (Kept(Here().len, bytes) + Zeros(pad))])
      ensures pad <= |Outs()[current]|
      ensures forall k :: |Outs()[current]| - pad <= k < |Outs()[current]| ==> Outs()[current][k] == 0
      ensures !old(Fills(Here().len, Data(bytes, pad))) ==>
                Valid() && lines == old(lines + [Upcoming(Data(bytes, pad))])
                && Lens() == old(LensAfter(Data(bytes, pad)))
    {
      hide Table, Output, Whole, Target, Kept, Piece, Zeros, Parsed;
      DataIsParsed(bytes, pad);
      ghost var h, e, outs, flushed := lines, Upcoming(Data(bytes, pad)), Outs(), Flushed();
      ghost var fits := !Fills(Here().len, e.stmt);
      TableAfterOther(labels, lines, e);
      Here().Store(bytes, pad);
      if fits {
        lines := lines + [e];
        DataPiece(outs[e.sec], e, Target(h + [e], |h|));
        Close(h, e, outs, flushed);
      }
    }

    /** A word at the end of the section: the one the line stands for, if the buffer does not fill up. */
    method EmitWord(ghost e: Event, word: bv32)
      requires Distinct() && SectionsValid()
      requires (forall k {:trigger lines[k]} :: 0 <= k < |lines| ==> Parsed(lines[k].stmt)) && Parsed(e.stmt)
      requires Table(labels, lines + [e]) && Output(lines, Base(), Outs()) && Whole(lines, Flushed())
      requires e == Upcoming(e.stmt) && (e.stmt.Operation? || e.stmt.Use?)
      requires Piece(e, Target(lines + [e], |lines|)) == Bytes(word)
      modifies this`lines, text, data, text.buf, data.buf
      ensures SectionsValid()
      ensures Outs() == old(Outs()[current := Outs()[current] + Kept(Here().len, Bytes(word))])
      ensures !old(Fills(Here().len, e.stmt)) ==>
                Valid() && lines == old(lines) + [e] && Lens() == old(LensAfter(e.stmt))
    {
      hide Table, Output, Whole, Target, Piece, Bytes, Parsed;
      ghost var h, outs, flushed := lines, Outs(), Flushed();
      ghost var fits := !Fills(Here().len, e.stmt);
      Here().Buffer(Bytes(word));
      if fits {
        lines := lines + [e];
        Close(h, e, outs, flushed);
      }
    }

    /** An operation without a label. */
    method EmitOperation(i: Instr)
      requires Valid() && Parsed(Operation(i))
      modifies this`lines, text, data, text.buf, data.buf
      ensures SectionsValid()
      ensures Outs() == old(Outs()[current := Outs()[current] + Kept(Here().len, Bytes(Encode(i)))])
      ensures !old(Fills(Here().len, Operation(i))) ==>
                Valid() && lines == old(lines + [Upcoming(Operation(i))])
                && Lens() == old(LensAfter(Operation(i)))
    {
      hide Table, Output, Whole, Target, Encode, Bytes;
      ghost var e := Upcoming(Operation(i));
      TableAfterOther(labels, lines, e);
      var word := Build(i);
      EmitWord(e, word);
    }

    /** emitter_label_get_or_add_waiter. */
    method LabelGetOrAddWaiter(name: string, jump: bool) returns (val: int)
      modifies this`labels
      ensures val == if name in old(labels) && old(labels)[name].val >= 0 then old(labels)[name].val else -1
      ensures labels == WithWaiter(old(labels), name, Waiter(Here().pos, current, jump))
    {
      if name !in labels {
        labels := labels[name := Label(-1, [])];
      }
      var e := labels[name];
      if e.val < 0 {
        labels := labels[name := Label(e.val, e.waiters + [Waiter(Here().pos, current, jump)])];
        assert name !in old(labels) ==> e.waiters + [Waiter(Here().pos, current, jump)] == [Waiter(Here().pos, current, jump)];
        return -1;
      }
      return e.val;
    }

    /** An operation with a label: its offset goes in now if the label's value is known. */
    method EmitUse(name: string, i: Instr)
      requires Valid() && Parsed(Use(name, i))
      modifies this`lines, this`labels, text, data, text.buf, data.buf
      ensures SectionsValid()
      ensures Outs() == old(Outs()[current := Outs()[current]
                              + Kept(Here().len, PieceNow(Use(name, i)))])
      ensures !old(Fills(Here().len, Use(name, i))) ==>
                Valid() && lines == old(lines + [Upcoming(Use(name, i))])
                && Lens() == old(LensAfter(Use(name, i)))
    {
      hide Table, Output, Whole, Target, Encode, Bytes, Piece, Known, ToU32, SetImm, Encoder.Valid;
      ghost var e := Upcoming(Use(name, i));
      TableAfterUse(labels, lines, e);
      ghost var known := Known(lines, name);
      TableSays(labels, lines, name);
      UseTarget(lines, e);
      UsePiece(e, known);
      var jump := FormatOf(i.op) == JType;
      var lbval := LabelGetOrAddWaiter(name, jump);
      var word := Build(i);
      if lbval >= 0 {
        lbval := lbval - Here().vaddr;
        lbval := lbval - Here().pos;
        PatchedWord(i, e.addr, known.value);
        word := SetImm(jump, word, ToU32(lbval));
      }
      EmitWord(e, word);
    }

    // ---------- definitions ----------

    /** One waiter of emitter_label_add's loop, if its word is still in the buffer. */
    method Serve(w: Waiter, val: nat) returns (served: bool)
      requires Distinct() && SectionsValid() && w.sec < 2 && w.fix + 4 <= |Outs()[w.sec]|
      modifies text.buf, data.buf
      ensures SectionsValid() && Flushed() == old(Flushed())
      ensures served <==> Flushed()[w.sec] <= w.fix
      ensures Outs() == if served then old(Outs()[w.sec := Patched(Outs()[w.sec], w, ToU32(val - (w.fix + Base()[w.sec])))])
                        else old(Outs())
    {
      hide ToU32, SetImm, FromBytes, Bytes;
      var s := if w.sec == 0 then text else data;
      var offset := val - (w.fix + s.vaddr);
      if s.pos - s.len > w.fix {
        return false;
      }
      s.Patch(w.fix, w.jump, ToU32(offset));
      return true;
    }

    /** Line i's word has left the buffer. */
    ghost predicate Gone(i: nat)
      reads this, text, data
    {
      i < |lines| && lines[i].sec < 2 && lines[i].at < Flushed()[lines[i].sec]
    }

    /** emitter_label_add's loop. */
    method ServeAll(name: string, val: nat) returns (served: bool)
      requires Valid() && name in labels && Known(lines, name).None?
      modifies text.buf, data.buf
      ensures Distinct() && SectionsValid() && Flushed() == old(Flushed())
      ensures |text.Out()| == old(|text.Out()|) && |data.Out()| == old(|data.Out()|)
      ensures served <==> forall j {:trigger Pending(lines, name)[j]} :: 0 <= j < |Pending(lines, name)| ==> !Gone(Pending(lines, name)[j])
      ensures served ==> Served(lines, Outs(), Pending(lines, name), |Pending(lines, name)|, val)
    {
      hide Table, Output, Whole, Served, Patched, ToU32, Parsed, LaidOut, Pending;
      ghost var pending := Pending(lines, name);
      TableSays(labels, lines, name);
      OutputServed(lines, Base(), Outs(), pending, val);
      var waiters := labels[name].waiters;
      var j := 0;
      while j < |waiters|
        invariant j <= |waiters| == |pending|
        invariant Distinct() && SectionsValid() && Flushed() == old(Flushed())
        invariant |text.Out()| == old(|text.Out()|) && |data.Out()| == old(|data.Out()|)
        invariant forall b {:trigger pending[b]} :: 0 <= b < j ==> !Gone(pending[b])
        invariant Served(lines, Outs(), pending, j, val)
      {
        ghost var i := pending[j];
        ServeOne(lines, Base(), Outs(), name, j, val);
        PlaceOf(lines, Base(), i);
        served := Serve(waiters[j], val);
        if !served {
          assert Gone(pending[j]);
          return;
        }
        j := j + 1;
      }
      return true;
    }

    /** emitter_label_add. Either the label has an address already, and nothing changes; or a word that waits for it has
        left its buffer, and the assembler gives up; or every waiting word is patched. */
    method LabelAdd(name: string) returns (r: Outcome)
      requires Valid()
      modifies this`lines, this`labels, text.buf, data.buf
      ensures r != Spilled
      ensures r == Redefined <==> Known(old(lines), name).Some?
      ensures r == Unimplemented <==> exists i :: Waits(old(lines), i, name) && old(Gone(i))
      ensures r == Redefined ==> lines == old(lines) && labels == old(labels) && Outs() == old(Outs())
      ensures r != Unimplemented ==> Valid()
      ensures r == Accepted ==> lines == old(lines + [Upcoming(Define(name))])
    {
      hide Output, Whole, Served, Patched, Table, LaidOut, Resolved, Pending;
      ghost var h, e := lines, Upcoming(Define(name));
      PendingExactly(h, name);
      TableSays(labels, h, name);
      OutputServed(h, Base(), Outs(), [], 0);
      var val := Here().pos + Here().vaddr;
      if name in labels && labels[name].val >= 0 {
        KnownHasNoWaiters(h, name);
        return Redefined;
      }
      if name in labels {
        var served := ServeAll(name, val);
        if !served {
          return Unimplemented;
        }
      } else {
        NewLabel(labels, h, Base(), Outs(), name, val);
      }
      TableAfterDefine(labels, h, e);
      ServedAll(h, Base(), Outs(), e);
      WholeAfterDefine(h, e, Flushed());
      labels := WithDefinition(labels, name, val);
      lines := lines + [e];
      return Accepted;
    }

    // ---------- lines and programs ----------

    /** What parse_line does with a line once its operands are read. When the buffer fills up, bytes are lost; the source
        goes on without notice. */
    method Line(st: Statement) returns (r: Outcome)
      requires Valid() && Parsed(st)
      modifies this, text, data, text.buf, data.buf
      ensures r == Accepted ==> Valid() && lines == old(lines + [Upcoming(st)])
      ensures r == Accepted ==> current == if st.Section? then st.sec else old(current)
      ensures r == Accepted ==> !old(Fills(Here().len, st)) && Lens() == old(LensAfter(st))
      ensures r == Redefined <==> st.Define? && Known(old(lines), st.name).Some?
      ensures r == Spilled <==> old(Fills(Here().len, st))
      ensures r == Spilled ==> SectionsValid() && Outs() == old(Outs()[current := Outs()[current] + KeptNow(st)])
      ensures r == Unimplemented <==> st.Define? && exists i :: Waits(old(lines), i, st.name) && old(Gone(i))
    {
      hide Valid, Known, Waits, Gone, Zeros, Bytes, Encode, Kept, Piece, Outs;
      FillsOnlyWithBytes(Here().len, st);
      HasRoom();
      r := if Fills(Here().len, st) then Spilled else Accepted;
      match st
      case Operation(i) => EmitOperation(i);
      case Use(name, i) => EmitUse(name, i);
      case Define(name) => r := LabelAdd(name);
      case Data(bytes, pad) => EmitData(bytes, pad);
      case Space(size) => Reserve(size);
      case Section(sec) => Select(sec);
    }

    lemma HasRoom()
      requires Valid()
      ensures Here().len < BUFFER_SIZE && current < 2
    {}

    /** A whole program. It ends as Verdict says; when every line is accepted, each section holds what one pass makes of
        the program, and that is what two passes make of it exactly if no use goes without an offset that it needs. */
    method Run(p: seq<Statement>) returns (r: Outcome, n: nat)
      requires Valid() && lines == [] && current == 0 && Lens() == [0, 0] && Program(p)
      modifies this, text, data, text.buf, data.buf
      ensures n <= |p| && (r == Accepted <==> n == |p|)
      ensures forall j :: 0 <= j < n ==> Verdict(p, Base(), j) == Accepted
      ensures n < |p| ==> r == Verdict(p, Base(), n)
      // After a line that fills the buffer its section is shorter than two passes make it.
      ensures r == Spilled ==>
                && SectionsValid() && Selected(p[..n]) < 2
                && |Outs()[Selected(p[..n])]| < Counter(Layout(p[..n + 1], Base()), Selected(p[..n]))
      // A program whose sections fit their buffers and that defines no label twice is accepted.
      ensures DefinedOnce(p) && Counter(Layout(p, Base()), 0) < BUFFER_SIZE && Counter(Layout(p, Base()), 1) < BUFFER_SIZE
              ==> r == Accepted
      ensures r == Accepted ==> Valid() && lines == Layout(p, Base())
      ensures r == Accepted ==> forall s :: 0 <= s < 2 ==> Outs()[s] == OnePassImage(p, Base(), s)
      ensures r == Accepted && NoneAround(p) && DefinedOnce(p) ==>
                Outs()[0] == Reference(p, Base(), 0) && Outs()[1] == Reference(p, Base(), 1)
      ensures r == Accepted && DefinedOnce(p) ==>
                (Outs()[0] == Reference(p, Base(), 0) && Outs()[1] == Reference(p, Base(), 1)
                 <==> AllHarmless(Layout(p, Base())))
    {
      hide Valid, Layout, Image, Outs, Verdict, Buffered, AllHarmless, Reference, OnePassImage, Counter;
      n := 0;
      NoLines(p);
      ShortIsAccepted(p, Base());
      while n < |p|
        invariant n <= |p| && Valid() && lines == Layout(p[..n], Base()) && current == Selected(p[..n])
        invariant Lens() == [Buffered(p[..n], 0), Buffered(p[..n], 1)]
        invariant forall j :: 0 <= j < n ==> Verdict(p, Base(), j) == Accepted
      {
        NextLine(p, n);
        SpillFallsShort(p, n);
        r := Line(p[n]);
        if r != Accepted {
          return;
        }
        n := n + 1;
      }
      r := Accepted;
      assert p[..n] == p;
      Finished(p);
    }

    lemma SpillFallsShort(p: seq<Statement>, n: nat)
      requires Valid() && n < |p| && lines == Layout(p[..n], Base()) && current == Selected(p[..n])
      ensures current < 2
      ensures Fills(Here().len, p[n]) ==>
                |Outs()[current]| + |KeptNow(p[n])| < Counter(Layout(p[..n + 1], Base()), current)
    {
      hide Table, Whole, Window, LaidOut, Counter, Layout, Selected, KeptNow, Outs;
      LayoutNext(p, Base(), n);
      CounterNext(lines, Upcoming(p[n]), current);
      OutputServed(lines, Base(), Outs(), [], 0);
      if Fills(Here().len, p[n]) { KeptIsLess(p[n]); }
    }

    lemma NoLines(p: seq<Statement>)
      ensures Layout(p[..0], Base()) == [] && Selected(p[..0]) == 0
      ensures Buffered(p[..0], 0) == Buffered(p[..0], 1) == 0
    {}

    /** The line about to be read stands where the first pass puts it, and it ends as the program says. */
    lemma NextLine(p: seq<Statement>, n: nat)
      requires Valid() && n < |p| && lines == Layout(p[..n], Base()) && current == Selected(p[..n])
      requires Lens() == [Buffered(p[..n], 0), Buffered(p[..n], 1)]
      ensures Layout(p[..n + 1], Base()) == lines + [Upcoming(p[n])]
      ensures Selected(p[..n + 1]) == if p[n].Section? then p[n].sec else current
      ensures !Fills(Here().len, p[n]) ==>
                [Buffered(p[..n + 1], 0), Buffered(p[..n + 1], 1)] == LensAfter(p[n])
      ensures Verdict(p, Base(), n) ==
              if p[n].Define? then
                if Known(lines, p[n].name).Some? then Redefined
                else if exists i :: Waits(lines, i, p[n].name) && Gone(i) then Unimplemented
                else Accepted
              else if Fills(Here().len, p[n]) then Spilled else Accepted
    {
      hide Table, Whole, Window, LaidOut, Counter, Layout, Selected, Buffered, Known, Waits;
      LayoutNext(p, Base(), n);
      BufferedNext(p, n, 0);
      BufferedNext(p, n, 1);
      OutputServed(lines, Base(), Outs(), [], 0);
      forall i: nat ensures Gone(i) <==> Runs.Gone(p[..n], Base(), i) {}
    }

    /** In every state: a branch or jump whose label has an address reads back as itself with what is left of its offset;
        it leads to the label exactly if the offset is even and in reach. */
    lemma EveryUseDecodes(k: nat, a: nat)
      requires Valid() && k < |lines| && lines[k].stmt.Use? && Resolved(lines, k) == Some(a)
      ensures lines[k].sec < 2 && lines[k].at + 4 <= |Outs()[lines[k].sec]|
      ensures var e, op := lines[k], lines[k].stmt.instr.op;
        var imm := Truncated(op, ToU32(a - e.addr));
        && Decode(FromBytes(Outs()[e.sec][e.at..e.at + 4])) == Some(e.stmt.instr.(imm := imm))
        && (LeadsTo(op, imm, e.addr, a) <==> (a - e.addr) % 2 == 0 && -ReachOf(op) <= a - e.addr < ReachOf(op))
    {
      hide ToU32, Decode, FromBytes, LeadsTo, Table, Whole, Window, LaidOut, Counter, Truncated, ReachOf;
      OutputServed(lines, Base(), Outs(), [], 0);
      PlaceOf(lines, Base(), k);
      var out := Outs()[lines[k].sec];
      WindowFits(out, lines[k], Some(a));
      WaiterSize(lines[k]);
      UseDecodes(out, lines[k], a);
      LandsExactly(lines[k].stmt.instr.op, lines[k].addr, a);
    }

    lemma Finished(p: seq<Statement>)
      requires Valid() && lines == Layout(p, Base()) && Program(p)
      ensures forall s :: 0 <= s < 2 ==> Outs()[s] == OnePassImage(p, Base(), s)
      ensures DefinedOnce(p) ==> (Agrees(p, Base()) <==> AllHarmless(Layout(p, Base())))
      ensures DefinedOnce(p) && NoneAround(p) ==> Agrees(p, Base())
    {
      hide Window, Table, Whole, AllHarmless;
      forall s | 0 <= s < 2 ensures Outs()[s] == OnePassImage(p, Base(), s) {
        WindowsMakeImage(lines, Base(), OnePass(lines), s, Outs()[s]);
      }
      if DefinedOnce(p) {
        OutputIsTwoPassExactly(p, Base());
        OnePassSuffices(p, Base());
      }
    }

    // ---------- words ----------

    /** The word of an operation, field by field (parser.c:433-544); a label's offset is not part of it yet. */
    method Build(i: Instr) returns (instr: bv32)
      requires Encoder.Valid(i) && (TakesLabel(i.op) ==> i.imm == 0)
      ensures instr == Encode(i)
    {
      hide FormatOf, Opcode, Func3, Func7, Encoder.Valid, Encode;
      match FormatOf(i.op)
      case RType => instr := BuildRegister(i);
      case IType => instr := BuildImmediate(i);
      case SType => instr := BuildStore(i);
      case BType => instr := BuildBranch(i);
      case UType => instr := BuildUpper(i);
      case JType => instr := BuildJump(i);
    }

    method BuildRegister(i: Instr) returns (instr: bv32)
      requires FormatOf(i.op) == RType
      ensures instr == Encode(i)
    {
      hide FormatOf, Opcode, Func3, Func7;
      instr := Opcode(i.op);
      instr := instr | (i.rd << 7);
      instr := instr | (i.rs1 << 15);
      instr := instr | (i.rs2 << 20);
      instr := instr | (Func3(i.op) << 12);
      instr := instr | (Func7(i.op) << 25);
    }

    method BuildImmediate(i: Instr) returns (instr: bv32)
      requires FormatOf(i.op) == IType
      ensures instr == Encode(i)
    {
      hide FormatOf, Opcode, Func3;
      instr := Opcode(i.op);
      if i.op == SRAI {
        instr := instr | (0x20 << 25);
      }
      instr := instr | (i.rd << 7);
      instr := instr | (i.rs1 << 15);
      instr := instr | (i.imm << 20);
      instr := instr | (Func3(i.op) << 12);
    }

    method BuildStore(i: Instr) returns (instr: bv32)
      requires FormatOf(i.op) == SType
      ensures instr == Encode(i)
    {
      hide FormatOf, Opcode, Func3;
      instr := Opcode(i.op);
      instr := instr | (i.rs1 << 15);
      instr := instr | (i.rs2 << 20);
      instr := instr | ((i.imm & 0xfe0) << 20);
      instr := instr | ((i.imm & 0x1f) << 7);
      instr := instr | (Func3(i.op) << 12);
    }

    method BuildBranch(i: Instr) returns (instr: bv32)
      requires FormatOf(i.op) == BType && i.imm == 0
      ensures instr == Encode(i)
    {
      hide FormatOf, Opcode, Func3, SetBImm;
      instr := Opcode(i.op);
      instr := instr | (i.rs1 << 15);
      instr := instr | (i.rs2 << 20);
      instr := instr | (Func3(i.op) << 12);
      NoImm(instr);
    }

    method BuildUpper(i: Instr) returns (instr: bv32)
      requires FormatOf(i.op) == UType
      ensures instr == Encode(i)
    {
      hide FormatOf, Opcode;
      instr := JBase(Opcode(i.op), i.rd);
      instr := instr | (i.imm << 12);
    }

    method BuildJump(i: Instr) returns (instr: bv32)
      requires FormatOf(i.op) == JType && i.imm == 0
      ensures instr == Encode(i)
    {
      hide FormatOf, Opcode, SetJImm, JBase;
      instr := JBase(Opcode(i.op), i.rd);
      NoImm(instr);
    }
  }
}
