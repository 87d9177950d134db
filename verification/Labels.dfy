/** What a run of the assembler is, line by line, and what its one pass makes of labels (emitter.c:65-135,
    parser.c:485-538), against an assembler of two passes that first lays out every line and then encodes it. */
module Labels {
  import opened Options
  import opened Encoder
  import opened Offsets

  /** A line that parse_line accepted. pad is what the parser hands to emitter_advance after data. */
  datatype Statement =
    | Operation(instr: Instr)
    | Use(name: string, instr: Instr)
    | Define(name: string)
    | Data(bytes: seq<bv8>, pad: nat)
    | Space(size: nat)
    | Section(sec: nat)

  /** Branches and jumps take a label, no other operation does; there are two sections. */
  predicate Parsed(st: Statement) {
    match st
    case Operation(i) => Valid(i) && !TakesLabel(i.op)
    case Use(_, i) => Valid(i) && TakesLabel(i.op) && i.imm == 0
    case Section(s) => s < 2
    case _ => true
  }

  lemma DataIsParsed(bytes: seq<bv8>, pad: nat)
    ensures Parsed(Data(bytes, pad))
  {}

  /** A line together with where it was met: section, offset in it, and address. */
  datatype Event = Event(stmt: Statement, sec: nat, at: nat, addr: nat)

  predicate Uses(e: Event, name: string) {
    e.stmt.Use? && e.stmt.name == name
  }

  predicate Defines(e: Event, name: string) {
    e.stmt.Define? && e.stmt.name == name
  }

  // ---------- what the table knows ----------

  /** The value that the label table holds once these lines are read. A label enters the table when it is first met; only
      a definition that is itself the first mention stores its address (emitter.c:68-75, 112, 117-134). */
  function Known(h: seq<Event>, name: string): Option<nat> {
    if h == [] then None
    else
      var before, last := h[..|h| - 1], h[|h| - 1];
      if Met(before, name) then Known(before, name)
      else if Defines(last, name) then Some(last.addr) else None
  }

  predicate Met(h: seq<Event>, name: string) {
    exists k :: 0 <= k < |h| && Mentions(h[k], name)
  }

  predicate Mentions(e: Event, name: string) {
    Uses(e, name) || Defines(e, name)
  }

  /** The address that line i's label has got by now: known when the line was read, or patched in by the next definition. */
  function Resolved(h: seq<Event>, i: nat): Option<nat>
    requires i < |h| && h[i].stmt.Use?
  {
    var before, last := h[..|h| - 1], h[|h| - 1];
    if i == |h| - 1 then Known(before, last.stmt.name)
    else if Resolved(before, i).Some? then Resolved(before, i)
    else if Defines(last, h[i].stmt.name) then Some(last.addr) else None
  }

  /** The lines that wait for the label, in order. */
  function Pending(h: seq<Event>, name: string): seq<nat> {
    if h == [] then []
    else
      var before, last := h[..|h| - 1], h[|h| - 1];
      if Defines(last, name) then []
      else if Uses(last, name) && Known(before, name).None? then Pending(before, name) + [|before|]
      else Pending(before, name)
  }

  predicate Waits(h: seq<Event>, i: nat, name: string) {
    i < |h| && Uses(h[i], name) && Resolved(h, i).None?
  }

  lemma {:induction false} PendingExactly(h: seq<Event>, name: string)
    ensures forall i: nat {:trigger i in Pending(h, name)} {:trigger Waits(h, i, name)} ::
              i in Pending(h, name) <==> Waits(h, i, name)
    ensures forall a, b :: 0 <= a < b < |Pending(h, name)| ==> Pending(h, name)[a] < Pending(h, name)[b]
  {
    if h != [] {
      var before := h[..|h| - 1];
      PendingExactly(before, name);
      forall i: nat
        ensures i in Pending(h, name) <==> Waits(h, i, name)
      {
        if i < |before| {
          assert before[i] == h[i];
          assert Waits(h, i, name) <==> Waits(before, i, name) && !Defines(h[|before|], name);
        }
        assert i in Pending(before, name) <==> Waits(before, i, name);
      }
      forall a, b | 0 <= a < b < |Pending(h, name)|
        ensures Pending(h, name)[a] < Pending(h, name)[b]
      {
        var p := Pending(before, name);
        assert a < |p| && p[a] == Pending(h, name)[a] && p[a] in p;
      }
    }
  }

  lemma {:induction false} KnownHasNoWaiters(h: seq<Event>, name: string)
    requires Known(h, name).Some?
    ensures Pending(h, name) == []
  {
    if Met(h[..|h| - 1], name) {
      KnownHasNoWaiters(h[..|h| - 1], name);
    }
  }

  /** Line d is the first to mention the label, and defines it. */
  predicate DefinesFirst(h: seq<Event>, name: string, d: nat) {
    d < |h| && Defines(h[d], name) && forall i :: 0 <= i < d ==> !Mentions(h[i], name)
  }

  /** A definition is seen as a second one exactly when the label's first mention is a definition. */
  lemma {:induction false} KnownWhenDefinedFirst(h: seq<Event>, name: string)
    ensures Known(h, name).Some? <==> exists d :: DefinesFirst(h, name, d)
  {
    if h != [] {
      var n := |h| - 1;
      var before := h[..n];
      KnownWhenDefinedFirst(before, name);
      forall d: nat ensures DefinesFirst(h, name, d) <==>
                            if Met(before, name) then DefinesFirst(before, name, d) else d == n && Defines(h[n], name)
      {
        DefinesFirstNext(h, name, d);
      }
      assert !Met(before, name) && Defines(h[n], name) ==> DefinesFirst(h, name, n);
    }
  }

  lemma DefinesFirstNext(h: seq<Event>, name: string, d: nat)
    requires h != []
    ensures var n := |h| - 1;
      DefinesFirst(h, name, d) <==>
        if Met(h[..n], name) then DefinesFirst(h[..n], name, d) else d == n && Defines(h[n], name)
  {
    var n := |h| - 1;
    var before := h[..n];
    forall i | 0 <= i < n ensures before[i] == h[i] {}
    if Met(before, name) {
      var m :| 0 <= m < n && Mentions(before[m], name);
      assert Mentions(h[m], name);
    } else {
      forall i | 0 <= i < n ensures !Mentions(h[i], name) {
        assert before[i] == h[i];
      }
    }
  }

  // ---------- the two-pass assembler ----------

  /** The symbol table of the first pass: where the label is defined, anywhere in the program. */
  function Address(h: seq<Event>, name: string): Option<nat> {
    if h == [] then None
    else if Defines(h[|h| - 1], name) then Some(h[|h| - 1].addr)
    else Address(h[..|h| - 1], name)
  }

  /** No label is defined twice. */
  predicate Unique(h: seq<Event>) {
    forall d, e {:trigger h[d], h[e]} :: 0 <= d < e < |h| && h[d].stmt.Define? ==> !Defines(h[e], h[d].stmt.name)
  }

  predicate UsedBefore(h: seq<Event>, d: nat) {
    d < |h| && h[d].stmt.Define? && exists i :: 0 <= i < d && Uses(h[i], h[d].stmt.name)
  }

  lemma {:induction false} AddressIsDefinition(h: seq<Event>, d: nat, name: string)
    requires Unique(h) && d < |h| && Defines(h[d], name)
    ensures Address(h, name) == Some(h[d].addr)
  {
    if d < |h| - 1 {
      assert !Defines(h[|h| - 1], name);
      AddressIsDefinition(h[..|h| - 1], d, name);
    }
  }

  lemma {:induction false} UndefinedHasNoAddress(h: seq<Event>, name: string)
    requires forall d :: 0 <= d < |h| ==> !Defines(h[d], name)
    ensures Address(h, name) == None && Known(h, name) == None
    ensures forall i: nat | i < |h| && Uses(h[i], name) :: Resolved(h, i) == None
  {
    if h != [] {
      UndefinedHasNoAddress(h[..|h| - 1], name);
    }
  }

  /** The table holds the address of the one definition from that line on, unless the label was used before it: then it
      never does. */
  lemma {:induction false} KnownExactly(h: seq<Event>, d: nat, name: string)
    requires Unique(h) && d < |h| && Defines(h[d], name)
    ensures Known(h, name) == if UsedBefore(h, d) then None else Some(h[d].addr)
  {
    var before := h[..|h| - 1];
    if d < |h| - 1 {
      assert before[d] == h[d] && Mentions(before[d], name);
      assert UsedBefore(h, d) <==> UsedBefore(before, d) by {
        forall i | 0 <= i < d ensures before[i] == h[i] {}
      }
      KnownExactly(before, d, name);
    } else {
      UndefinedHasNoAddress(before, name);
      if UsedBefore(h, d) {
        var i :| 0 <= i < d && Uses(h[i], name);
        assert Mentions(before[i], name);
      } else {
        forall k | 0 <= k < |before| ensures !Mentions(before[k], name) {
          assert before[k] == h[k];
        }
      }
    }
  }

  /** A use before the definition is patched with its address; a use after it finds the address only when no use came
      before the definition. */
  lemma {:induction false} ResolvedExactly(h: seq<Event>, i: nat, d: nat)
    requires Unique(h) && i < |h| && d < |h| && h[i].stmt.Use? && Defines(h[d], h[i].stmt.name)
    ensures Resolved(h, i) == if i < d || !UsedBefore(h, d) then Some(h[d].addr) else None
  {
    var before, name := h[..|h| - 1], h[i].stmt.name;
    if i == |h| - 1 {
      assert before[d] == h[d];
      KnownExactly(before, d, name);
      assert UsedBefore(h, d) <==> UsedBefore(before, d) by {
        forall i | 0 <= i < d ensures before[i] == h[i] {}
      }
    } else {
      assert before[i] == h[i];
      if d == |h| - 1 {
        forall k | 0 <= k < |before| ensures !Defines(before[k], name) {
          assert before[k] == h[k];
        }
        UndefinedHasNoAddress(before, name);
      } else {
        assert before[d] == h[d];
        ResolvedExactly(before, i, d);
        assert UsedBefore(h, d) <==> UsedBefore(before, d) by {
          forall i | 0 <= i < d ensures before[i] == h[i] {}
        }
      }
    }
  }

  /** The address each line's operand stands for, if any: in one pass, and in two. */
  function OnePass(h: seq<Event>): (ts: seq<Option<nat>>)
    ensures |ts| == |h|
  {
    seq(|h|, i requires 0 <= i < |h| => if h[i].stmt.Use? then Resolved(h, i) else None)
  }

  function TwoPass(h: seq<Event>): (ts: seq<Option<nat>>)
    ensures |ts| == |h|
  {
    seq(|h|, i requires 0 <= i < |h| => if h[i].stmt.Use? then Address(h, h[i].stmt.name) else None)
  }

  /** Line d defines a label that is used on both sides of it. */
  predicate Straddled(h: seq<Event>, d: nat) {
    UsedBefore(h, d) && exists j :: d < j < |h| && Uses(h[j], h[d].stmt.name)
  }

  /** One pass gives every operand the address that two passes give it if and only if no label is used both before and
      after its definition. */
  lemma OnePassIsTwoPass(h: seq<Event>)
    requires Unique(h)
    ensures OnePass(h) == TwoPass(h) <==> forall d :: 0 <= d < |h| ==> !Straddled(h, d)
  {
    forall i | 0 <= i < |h| && h[i].stmt.Use?
      ensures OnePass(h)[i] == TwoPass(h)[i] <==> forall d :: 0 <= d < i && Defines(h[d], h[i].stmt.name) ==> !UsedBefore(h, d)
    {
      UseIsRight(h, i);
    }
    if d :| 0 <= d < |h| && Straddled(h, d) {
      var j :| d < j < |h| && Uses(h[j], h[d].stmt.name);
      assert Defines(h[d], h[j].stmt.name);
      assert OnePass(h)[j] != TwoPass(h)[j];
    } else {
      forall i | 0 <= i < |h| ensures OnePass(h)[i] == TwoPass(h)[i] {
        if h[i].stmt.Use? {
          forall d | 0 <= d < i && Defines(h[d], h[i].stmt.name) ensures !UsedBefore(h, d) {
            assert !Straddled(h, d) && Uses(h[i], h[d].stmt.name);
          }
        }
      }
    }
  }

  lemma UseIsRight(h: seq<Event>, i: nat)
    requires Unique(h) && i < |h| && h[i].stmt.Use?
    ensures Resolved(h, i) == Address(h, h[i].stmt.name)
       <==> forall d :: 0 <= d < i && Defines(h[d], h[i].stmt.name) ==> !UsedBefore(h, d)
  {
    var name := h[i].stmt.name;
    if d :| 0 <= d < |h| && Defines(h[d], name) {
      AddressIsDefinition(h, d, name);
      ResolvedExactly(h, i, d);
      forall e | 0 <= e < i && Defines(h[e], name) ensures e == d {}
    } else {
      UndefinedHasNoAddress(h, name);
    }
  }

  // ---------- layout and image ----------

  function Zeros(n: nat): (z: seq<bv8>)
    ensures |z| == n && forall k :: 0 <= k < n ==> z[k] == 0
  {
    seq(n, i => 0)
  }

  function SizeOf(st: Statement): nat {
    match st
    case Operation(_) => 4
    case Use(_, _) => 4
    case Define(_) => 0
    case Data(bytes, pad) => |bytes| + pad
    case Space(size) => size
    case Section(_) => 0
  }

  /** An operation with its offset put in: the label's address less its own. Zero while the label has no address. */
  function Aimed(i: Instr, addr: nat, target: Option<nat>): Instr {
    match target
    case None => i
    case Some(a) => i.(imm := ToU32(a - addr))
  }

  /** The bytes of one line. */
  function Piece(e: Event, target: Option<nat>): (bytes: seq<bv8>)
    ensures |bytes| == SizeOf(e.stmt)
  {
    match e.stmt
    case Operation(i) => Bytes(Encode(i))
    case Use(_, i) => Bytes(Encode(Aimed(i, e.addr, target)))
    case Define(_) => []
    case Data(bytes, pad) => bytes + Zeros(pad)
    case Space(size) => Zeros(size)
    case Section(_) => []
  }

  /** The first pass's location counter of a section. */
  function Counter(h: seq<Event>, sec: nat): nat {
    if h == [] then 0
    else
      var last := h[|h| - 1];
      Counter(h[..|h| - 1], sec) + if last.sec == sec then SizeOf(last.stmt) else 0
  }

  lemma CounterNext(h: seq<Event>, e: Event, sec: nat)
    ensures Counter([], sec) == 0
    ensures Counter(h + [e], sec) == Counter(h, sec) + if e.sec == sec then SizeOf(e.stmt) else 0
  {
    assert (h + [e])[..|h|] == h;
  }

  /** The second pass: the image of a section. */
  function Image(h: seq<Event>, targets: seq<Option<nat>>, sec: nat): (image: seq<bv8>)
    requires |targets| >= |h|
    ensures |image| == Counter(h, sec)
  {
    if h == [] then []
    else
      var n := |h| - 1;
      Image(h[..n], targets, sec) + if h[n].sec == sec then Piece(h[n], targets[n]) else []
  }

  /** Every line stands where the location counter says. */
  predicate LaidOut(h: seq<Event>, base: seq<nat>)
    requires |base| == 2
  {
    forall k {:trigger h[k]} :: 0 <= k < |h| ==>
      h[k].sec < 2 && h[k].at == Counter(h[..k], h[k].sec) && h[k].addr == base[h[k].sec] + h[k].at
  }

  lemma {:induction false} CounterGrows(h: seq<Event>, i: nat, sec: nat)
    requires i < |h|
    ensures Counter(h[..i], sec) + (if h[i].sec == sec then SizeOf(h[i].stmt) else 0) <= Counter(h, sec)
    decreases |h|
  {
    var before := h[..|h| - 1];
    if i < |before| {
      assert before[..i] == h[..i] && before[i] == h[i];
      CounterGrows(before, i, sec);
    }
  }

  /** Lines of one section do not overlap. */
  lemma Apart(h: seq<Event>, base: seq<nat>, i: nat, j: nat)
    requires |base| == 2 && LaidOut(h, base)
    requires i < j < |h| && h[i].sec == h[j].sec
    ensures h[i].at + SizeOf(h[i].stmt) <= h[j].at
  {
    assert h[..j][..i] == h[..i] && h[..j][i] == h[i];
    CounterGrows(h[..j], i, h[i].sec);
  }

  /** The bytes of the line are where they belong. */
  predicate Window(out: seq<bv8>, e: Event, target: Option<nat>) {
    e.at + SizeOf(e.stmt) <= |out| && out[e.at..e.at + SizeOf(e.stmt)] == Piece(e, target)
  }

  lemma WindowOfPrefix(out: seq<bv8>, n: nat, e: Event, target: Option<nat>)
    requires e.at + SizeOf(e.stmt) <= n <= |out|
    ensures Window(out[..n], e, target) == Window(out, e, target)
  {
    assert out[..n][e.at..e.at + SizeOf(e.stmt)] == out[e.at..e.at + SizeOf(e.stmt)];
  }

  lemma LastWindow(out: seq<bv8>, e: Event, target: Option<nat>)
    requires Window(out, e, target) && |out| == e.at + SizeOf(e.stmt)
    ensures out == out[..e.at] + Piece(e, target)
  {}

  /** An output with every line in its place is the image. */
  lemma {:induction false} WindowsMakeImage(h: seq<Event>, base: seq<nat>, targets: seq<Option<nat>>, sec: nat,
                                            out: seq<bv8>)
    requires |base| == 2 && LaidOut(h, base) && |targets| >= |h|
    requires |out| == Counter(h, sec)
    requires forall k {:trigger h[k]} :: 0 <= k < |h| && h[k].sec == sec ==> Window(out, h[k], targets[k])
    ensures out == Image(h, targets, sec)
  {
    hide Window, Piece, SizeOf;
    if h != [] {
      var n := |h| - 1;
      var before := h[..n];
      var c := Counter(before, sec);
      forall k | 0 <= k < n
        ensures before[k].sec < 2 && before[k].at == Counter(before[..k], before[k].sec)
        ensures before[k].addr == base[before[k].sec] + before[k].at
        ensures before[k].sec == sec ==> Window(out[..c], before[k], targets[k])
      {
        assert before[k] == h[k] && before[..k] == h[..k];
        CounterGrows(before, k, sec);
        if h[k].sec == sec { WindowOfPrefix(out, c, h[k], targets[k]); }
      }
      WindowsMakeImage(before, base, targets, sec, out[..c]);
      if h[n].sec == sec {
        LastWindow(out, h[n], targets[n]);
      } else {
        assert out[..c] == out;
      }
    }
  }

  // ---------- offsets in words ----------

  /** How far a branch or a jump reaches. */
  function ReachOf(op: Op): int {
    if FormatOf(op) == BType then 0x1000 else 0x100000
  }

  lemma ReachExactly(op: Op, z: int)
    requires TakesLabel(op) && -0x80000000 <= z < 0x80000000
    ensures IsEven(ToU32(z)) && SignedBelow(ToU32(z), Span(op)) <==> z % 2 == 0 && -ReachOf(op) <= z < ReachOf(op)
  {
    hide ToU32, SignedBelow, IsEven;
    OffsetFits(z);
    OffsetIsEven(z);
  }

  /** What reading back a branch or jump gives, whatever the offset: the operation, with what is left of the offset. */
  lemma UseDecodes(out: seq<bv8>, e: Event, a: nat)
    requires Window(out, e, Some(a)) && e.stmt.Use? && Parsed(e.stmt)
    ensures var imm := Truncated(e.stmt.instr.op, ToU32(a - e.addr));
      Decode(FromBytes(out[e.at..e.at + 4])) == Some(e.stmt.instr.(imm := imm))
  {
    hide ToU32, Encode, Decode, FromBytes, Bytes, Valid, FormatOf, Truncated;
    WordOfBytes(Encode(Aimed(e.stmt.instr, e.addr, Some(a))));
    OffsetRoundTrip(e.stmt.instr, ToU32(a - e.addr));
  }

  /** The immediate, a signed number in the reach of the format, leads from addr to a. */
  ghost predicate LeadsTo(op: Op, imm: bv32, addr: nat, a: nat) {
    exists z: int {:trigger ToU32(z)} :: -ReachOf(op) <= z < ReachOf(op) && ToU32(z) == imm && addr + z == a
  }

  /** What is left of the offset leads to the label exactly if the offset is even and in the reach of the format. */
  lemma LandsExactly(op: Op, addr: nat, a: nat)
    requires TakesLabel(op)
    ensures LeadsTo(op, Truncated(op, ToU32(a - addr)), addr, a)
       <==> (a - addr) % 2 == 0 && -ReachOf(op) <= a - addr < ReachOf(op)
  {
    hide ToU32, Truncated, FormatOf, IsEven, SignedBelow;
    var z := a - addr;
    TruncatedExactly(op, ToU32(z));
    ReachIsShort(op);
    if -ReachOf(op) <= z < ReachOf(op) {
      ReachExactly(op, z);
    }
  }

  lemma ReachIsShort(op: Op)
    ensures 0 < ReachOf(op) <= 0x100000
  {}

  /** A word without the offset to a is the word with it: none of the offset's bits has a place in the word. */
  predicate Harmless(e: Event, a: nat)
    requires e.stmt.Use?
  {
    LeavesNothing(e.stmt.instr.op, ToU32(a - e.addr))
  }

  /** For an even offset in reach that means that there is no offset: the line stands at its label. */
  lemma HarmlessExactly(e: Event, a: nat)
    requires e.stmt.Use? && Parsed(e.stmt)
    requires (a - e.addr) % 2 == 0 && -ReachOf(e.stmt.instr.op) <= a - e.addr < ReachOf(e.stmt.instr.op)
    ensures Harmless(e, a) <==> e.addr == a
  {
    hide ToU32, FormatOf, IsEven, SignedBelow, Valid, LeavesNothing, Truncated;
    var op, x := e.stmt.instr.op, ToU32(a - e.addr);
    ReachExactly(op, a - e.addr);
    TruncatedExactly(op, x);
    TruncatedZero(op, x);
    ToU32OfZero(a - e.addr);
  }

  lemma PieceExactly(e: Event, a: nat)
    requires e.stmt.Use? && Parsed(e.stmt)
    ensures Piece(e, None) == Piece(e, Some(a)) <==> Harmless(e, a)
  {
    hide ToU32, Encode, Bytes, FromBytes, FormatOf, LeavesNothing, Valid;
    var i := e.stmt.instr;
    SameWordExactly(i, ToU32(a - e.addr));
    WordOfBytes(Encode(i));
    WordOfBytes(Encode(Aimed(i, e.addr, Some(a))));
  }

  // ---------- when two images are equal ----------

  predicate SamePieces(h: seq<Event>, ts: seq<Option<nat>>, us: seq<Option<nat>>)
    requires |ts| >= |h| && |us| >= |h|
  {
    forall k {:trigger h[k]} :: 0 <= k < |h| ==> Piece(h[k], ts[k]) == Piece(h[k], us[k])
  }

  lemma {:induction false} ImagesExactly(h: seq<Event>, ts: seq<Option<nat>>, us: seq<Option<nat>>)
    requires |ts| >= |h| && |us| >= |h|
    requires forall k {:trigger h[k]} :: 0 <= k < |h| ==> h[k].sec < 2
    ensures Image(h, ts, 0) == Image(h, us, 0) && Image(h, ts, 1) == Image(h, us, 1) <==> SamePieces(h, ts, us)
  {
    hide Image, Piece, Counter;
    if h == [] {
      NoImage(ts);
      NoImage(us);
    } else {
      var n := |h| - 1;
      var before := h[..n];
      ImagesExactly(before, ts, us);
      ImageEnds(h, ts, us, 0);
      ImageEnds(h, ts, us, 1);
      if SamePieces(h, ts, us) {
        forall k | 0 <= k < n ensures Piece(before[k], ts[k]) == Piece(before[k], us[k]) {
          assert before[k] == h[k];
        }
      } else if SamePieces(before, ts, us) {
        forall k | 0 <= k < n ensures Piece(h[k], ts[k]) == Piece(h[k], us[k]) {
          assert before[k] == h[k];
        }
      }
    }
  }

  lemma NoImage(ts: seq<Option<nat>>)
    ensures Image([], ts, 0) == Image([], ts, 1) == []
  {}

  lemma ImageEnds(h: seq<Event>, ts: seq<Option<nat>>, us: seq<Option<nat>>, sec: nat)
    requires h != [] && |ts| >= |h| && |us| >= |h|
    ensures var n := |h| - 1;
      Image(h, ts, sec) == Image(h, us, sec) <==>
        Image(h[..n], ts, sec) == Image(h[..n], us, sec) && (h[n].sec == sec ==> Piece(h[n], ts[n]) == Piece(h[n], us[n]))
  {
    hide Piece;
    var n := |h| - 1;
    if h[n].sec == sec {
      SameEnds(Image(h[..n], ts, sec), Image(h[..n], us, sec), Piece(h[n], ts[n]), Piece(h[n], us[n]));
    } else {
      assert Image(h, ts, sec) == Image(h[..n], ts, sec) && Image(h, us, sec) == Image(h[..n], us, sec);
    }
  }

  lemma SameEnds<T>(a: seq<T>, b: seq<T>, c: seq<T>, d: seq<T>)
    requires |a| == |b|
    ensures a + c == b + d <==> a == b && c == d
  {
    assert (a + c)[..|a|] == a && (b + d)[..|b|] == b && (a + c)[|a|..] == c && (b + d)[|b|..] == d;
  }

  /** The uses that one pass leaves without an address come to no harm. */
  predicate AllHarmless(h: seq<Event>) {
    forall d, j {:trigger h[d], h[j]} :: 0 <= d < j < |h| && UsedBefore(h, d) && Uses(h[j], h[d].stmt.name) ==>
      Harmless(h[j], h[d].addr)
  }

  /** One pass puts out what two passes put out if and only if no word that it leaves without an address needs one. */
  lemma OutputExactly(h: seq<Event>)
    requires Unique(h)
    requires forall k {:trigger h[k]} :: 0 <= k < |h| ==> h[k].sec < 2 && Parsed(h[k].stmt)
    ensures Image(h, OnePass(h), 0) == Image(h, TwoPass(h), 0) && Image(h, OnePass(h), 1) == Image(h, TwoPass(h), 1)
       <==> AllHarmless(h)
  {
    hide Image, Piece, Parsed, Harmless;
    ImagesExactly(h, OnePass(h), TwoPass(h));
    forall k | 0 <= k < |h|
      ensures Piece(h[k], OnePass(h)[k]) == Piece(h[k], TwoPass(h)[k]) <==> HarmlessAt(h, k)
    {
      if h[k].stmt.Use? { UseOutputExactly(h, k); }
    }
    assert AllHarmless(h) <==> forall k :: 0 <= k < |h| ==> HarmlessAt(h, k);
  }

  predicate HarmlessAt(h: seq<Event>, j: nat)
    requires j < |h|
  {
    forall d {:trigger h[d]} :: 0 <= d < j && UsedBefore(h, d) && Uses(h[j], h[d].stmt.name) ==> Harmless(h[j], h[d].addr)
  }

  lemma UseOutputExactly(h: seq<Event>, k: nat)
    requires Unique(h) && k < |h| && h[k].stmt.Use? && Parsed(h[k].stmt)
    ensures Piece(h[k], OnePass(h)[k]) == Piece(h[k], TwoPass(h)[k]) <==> HarmlessAt(h, k)
  {
    hide Piece, Parsed, Harmless, Resolved, Address, UsedBefore;
    var name := h[k].stmt.name;
    if d :| 0 <= d < |h| && Defines(h[d], name) {
      AddressIsDefinition(h, d, name);
      ResolvedExactly(h, k, d);
      PieceExactly(h[k], h[d].addr);
      forall e | 0 <= e < k && h[e].stmt.Define? && Uses(h[k], h[e].stmt.name) ensures e == d {}
      UsedBeforeDefines(h);
    } else {
      UndefinedHasNoAddress(h, name);
      UsedBeforeDefines(h);
    }
  }

  lemma UsedBeforeDefines(h: seq<Event>)
    ensures forall d: nat :: UsedBefore(h, d) ==> d < |h| && h[d].stmt.Define?
  {}
}
