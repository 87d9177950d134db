/** How far a run gets, as a function of the program: which line ends it, and why. */
module Runs {
  import opened Options
  import opened Encoder
  import opened Offsets
  import opened Labels
  import opened Programs
  import opened Sections

  /** How a line ends: accepted; "label redefined"; a panic because a waiting word is no longer in the buffer; or the
      buffer filled up, and bytes were lost. */
  datatype Outcome = Accepted | Redefined | Unimplemented | Spilled

  /** Bytes that a line hands to emitter_buffer. */
  function Passed(st: Statement): nat {
    match st
    case Operation(_) => 4
    case Use(_, _) => 4
    case Data(bytes, _) => |bytes|
    case _ => 0
  }

  /** Bytes that a line skips with emitter_advance. */
  function Skipped(st: Statement): nat {
    match st
    case Data(_, pad) => pad
    case Space(size) => size
    case _ => 0
  }

  predicate Fills(len: nat, st: Statement) {
    len + Passed(st) >= BUFFER_SIZE
  }

  lemma FillsOnlyWithBytes(len: nat, st: Statement)
    ensures len < BUFFER_SIZE && Fills(len, st) ==> st.Operation? || st.Use? || st.Data?
  {}

  /** The length of the buffer after a line that does not fill it: skipping may flush it. */
  function LenAfter(len: nat, st: Statement): (n: nat)
    requires !Fills(len, st)
    ensures n < BUFFER_SIZE
  {
    var n := len + Passed(st) + Skipped(st);
    if n >= BUFFER_SIZE then 0 else n
  }

  /** The length of a section's buffer after these lines. */
  function Buffered(p: seq<Statement>, sec: nat): (n: nat)
    ensures n < BUFFER_SIZE
  {
    if p == [] then 0
    else
      var before, st := p[..|p| - 1], p[|p| - 1];
      var n := Buffered(before, sec);
      if Selected(before) == sec && !Fills(n, st) then LenAfter(n, st) else n
  }

  /** Line i's bytes have left the buffer. */
  ghost predicate Gone(p: seq<Statement>, base: seq<nat>, i: nat)
    requires |base| == 2
  {
    var h := Layout(p, base);
    i < |h| && h[i].sec < 2 && h[i].at + Buffered(p, h[i].sec) < Counter(h, h[i].sec)
  }

  /** How line n ends when the lines before it are accepted. */
  ghost function Verdict(p: seq<Statement>, base: seq<nat>, n: nat): Outcome
    requires |base| == 2 && n < |p|
  {
    var q, st := p[..n], p[n];
    var h := Layout(q, base);
    if st.Define? then
      if Known(h, st.name).Some? then Redefined
      else if exists i :: Waits(h, i, st.name) && Gone(q, base, i) then Unimplemented
      else Accepted
    else if Fills(Buffered(q, Selected(q)), st) then Spilled
    else Accepted
  }

  lemma BufferedNext(p: seq<Statement>, n: nat, sec: nat)
    requires n < |p|
    ensures var len := Buffered(p[..n], sec);
      Buffered(p[..n + 1], sec) == if Selected(p[..n]) == sec && !Fills(len, p[n]) then LenAfter(len, p[n]) else len
  {
    var q := p[..n + 1];
    assert q[..|q| - 1] == p[..n] && q[|q| - 1] == p[n];
  }

  // ---------- programs that are accepted ----------

  lemma {:induction false} ShortIsBuffered(p: seq<Statement>, base: seq<nat>, sec: nat)
    requires |base| == 2 && Counter(Layout(p, base), sec) < BUFFER_SIZE
    ensures Buffered(p, sec) == Counter(Layout(p, base), sec)
  {
    if p != [] {
      var n := |p| - 1;
      LayoutNext(p, base, n);
      assert p[..n + 1] == p;
      var h := Layout(p, base);
      assert h[..n] == Layout(p[..n], base);
      SizeParts(p[n]);
      ShortIsBuffered(p[..n], base, sec);
    }
  }

  lemma SizeParts(st: Statement)
    ensures SizeOf(st) == Passed(st) + Skipped(st)
  {}

  lemma {:induction false} PrefixIsShort(p: seq<Statement>, base: seq<nat>, n: nat, sec: nat)
    requires |base| == 2 && n <= |p|
    ensures Counter(Layout(p[..n], base), sec) <= Counter(Layout(p, base), sec)
    decreases |p| - n
  {
    if n == |p| {
      assert p[..n] == p;
    } else {
      LayoutNext(p, base, n);
      var h := Layout(p[..n + 1], base);
      assert h[..n] == Layout(p[..n], base);
      PrefixIsShort(p, base, n + 1, sec);
    }
  }

  /** While the sections fit their buffers only a second definition is refused. */
  lemma ShortVerdict(p: seq<Statement>, base: seq<nat>, n: nat)
    requires |base| == 2 && Program(p) && n < |p|
    requires Counter(Layout(p, base), 0) < BUFFER_SIZE && Counter(Layout(p, base), 1) < BUFFER_SIZE
    ensures Verdict(p, base, n)
         == if p[n].Define? && Known(Layout(p[..n], base), p[n].name).Some? then Redefined else Accepted
  {
    hide Counter, Parsed, Known, Layout, Buffered, LaidOut;
    var q := p[..n];
    forall sec | 0 <= sec < 2
      ensures Buffered(q, sec) == Counter(Layout(q, base), sec)
    {
      PrefixIsShort(p, base, n, sec);
      ShortIsBuffered(q, base, sec);
    }
    if !p[n].Define? {
      SelectedFits(p, base, n);
    }
  }

  /** A program whose sections fit their buffers and that defines no label twice is accepted line by line. */
  lemma ShortProgramIsAccepted(p: seq<Statement>, base: seq<nat>, n: nat)
    requires |base| == 2 && Program(p) && DefinedOnce(p) && n < |p|
    requires Counter(Layout(p, base), 0) < BUFFER_SIZE && Counter(Layout(p, base), 1) < BUFFER_SIZE
    ensures Verdict(p, base, n) == Accepted
  {
    hide Verdict;
    ShortVerdict(p, base, n);
    if p[n].Define? {
      FirstDefinition(p, base, n);
    }
  }

  lemma ShortIsAccepted(p: seq<Statement>, base: seq<nat>)
    requires |base| == 2 && Program(p)
    ensures DefinedOnce(p) && Counter(Layout(p, base), 0) < BUFFER_SIZE && Counter(Layout(p, base), 1) < BUFFER_SIZE ==>
              forall n: nat {:trigger Verdict(p, base, n)} :: n < |p| ==> Verdict(p, base, n) == Accepted
  {
    hide Verdict, Counter;
    if DefinedOnce(p) && Counter(Layout(p, base), 0) < BUFFER_SIZE && Counter(Layout(p, base), 1) < BUFFER_SIZE {
      forall n: nat | n < |p| ensures Verdict(p, base, n) == Accepted {
        ShortProgramIsAccepted(p, base, n);
      }
    }
  }

  lemma SelectedFits(p: seq<Statement>, base: seq<nat>, n: nat)
    requires |base| == 2 && Program(p) && n < |p|
    requires Counter(Layout(p, base), 0) < BUFFER_SIZE && Counter(Layout(p, base), 1) < BUFFER_SIZE
    ensures Selected(p[..n]) < 2 && !Fills(Counter(Layout(p[..n], base), Selected(p[..n])), p[n])
  {
    var sec := Selected(p[..n]);
    LayoutIsLaidOut(p[..n], base);
    LayoutNext(p, base, n);
    var h := Layout(p[..n + 1], base);
    assert h[..n] == Layout(p[..n], base);
    PrefixIsShort(p, base, n + 1, sec);
    SizeParts(p[n]);
  }

  lemma FirstDefinition(p: seq<Statement>, base: seq<nat>, n: nat)
    requires |base| == 2 && Program(p) && DefinedOnce(p) && n < |p| && p[n].Define?
    ensures Known(Layout(p[..n], base), p[n].name).None?
  {
    hide Known, Layout, Parsed, LaidOut;
    var q := p[..n];
    var h := Layout(q, base);
    LayoutIsLaidOut(q, base);
    KnownWhenDefinedFirst(h, p[n].name);
    forall d | 0 <= d < n ensures !Defines(h[d], p[n].name) {
      assert h[d].stmt == q[d] == p[d];
    }
  }

  /** A label is used, defined, and defined again. */
  function DefinedTwice(jump: Instr): seq<Statement> {
    [Use("a", jump), Define("a"), Define("a")]
  }

  lemma DefinedTwiceLayout(jump: Instr) returns (h: seq<Event>)
    ensures h == [Event(Use("a", jump), 0, 0, 0), Event(Define("a"), 0, 4, 4), Event(Define("a"), 0, 4, 4)]
    ensures var p, base := DefinedTwice(jump), [0, 0];
      && Layout(p[..1], base) == h[..1] && Layout(p[..2], base) == h[..2] && Layout(p, base) == h
      && Counter(h, 0) == 4
  {
    hide Layout, Counter, Selected;
    var p := DefinedTwice(jump);
    NothingLaidOut(p);
    var h1 := AddLine(p, 0, [], 0);
    var h2 := AddLine(p, 1, h1, 4);
    h := AddLine(p, 2, h2, 4);
    assert p[..3] == p && h[..1] == h1 && h[..2] == h2;
  }

  /** A second definition that nobody notices: the label was used before the first one. */
  lemma SecondDefinitionIsAccepted(jump: Instr)
    requires Parsed(Use("a", jump))
    ensures var p := DefinedTwice(jump);
      Program(p) && !DefinedOnce(p) && forall n :: 0 <= n < 3 ==> Verdict(p, [0, 0], n) == Accepted
  {
    hide Verdict, Known, Layout, Counter, Encoder.Valid, Image;
    var p, base := DefinedTwice(jump), [0, 0];
    var h := DefinedTwiceLayout(jump);
    assert p[1] == p[2];
    NothingInData(h, OnePass(h));
    ShortVerdict(p, base, 0);
    ShortVerdict(p, base, 1);
    ShortVerdict(p, base, 2);
    UseHidesDefinition(h[..1], 0, "a");
    UseHidesDefinition(h[..2], 0, "a");
  }

  lemma UseHidesDefinition(h: seq<Event>, i: nat, name: string)
    requires i < |h| && Uses(h[i], name) && forall d :: 0 <= d < i ==> !Defines(h[d], name)
    ensures Known(h, name).None?
  {
    hide Known;
    KnownWhenDefinedFirst(h, name);
    assert Mentions(h[i], name);
  }

  // ---------- a program that fills the buffer ----------

  function Repeated(i: Instr, n: nat): (p: seq<Statement>)
    ensures |p| == n && forall k :: 0 <= k < n ==> p[k] == Operation(i)
  {
    seq(n, _ => Operation(i))
  }

  lemma {:induction false} RepeatedIsBuffered(i: Instr, m: nat, n: nat)
    requires n <= m && 4 * n < BUFFER_SIZE
    ensures Selected(Repeated(i, m)[..n]) == 0 && Buffered(Repeated(i, m)[..n], 0) == 4 * n
  {
    hide Repeated;
    var p := Repeated(i, m);
    if n != 0 {
      RepeatedIsBuffered(i, m, n - 1);
      BufferedNext(p, n - 1, 0);
      SelectedNext(p, n - 1);
    }
  }

  lemma SelectedNext(p: seq<Statement>, n: nat)
    requires n < |p|
    ensures Selected(p[..n + 1]) == if p[n].Section? then p[n].sec else Selected(p[..n])
  {
    assert p[..n + 1][..n] == p[..n];
  }

  /** A program of as many operations as there are words in the buffer: the last one fills it, and is lost as a whole. */
  lemma LastWordIsLost(i: Instr, base: seq<nat>)
    requires |base| == 2 && Parsed(Operation(i))
    ensures var p := Repeated(i, 1024);
      && Program(p) && (forall n :: 0 <= n < 1023 ==> Verdict(p, base, n) == Accepted)
      && Verdict(p, base, 1023) == Spilled
      && Buffered(p[..1023], 0) == 4092 && Kept(4092, Bytes(Encode(i))) == []
  {
    hide Repeated, Encoder.Valid, Buffered, Selected, Bytes, Encode;
    var p := Repeated(i, 1024);
    forall n | 0 <= n < 1024 ensures Verdict(p, base, n) == if n < 1023 then Accepted else Spilled {
      RepeatedIsBuffered(i, 1024, n);
    }
    RepeatedIsBuffered(i, 1024, 1023);
    LostExactly(4092, 4);
  }

  // ---------- a program whose branch cannot reach ----------

  function FarBranch(branch: Instr): seq<Statement> {
    [Define("a"), Space(4100), Use("a", branch)]
  }

  lemma FarBranchLayout(branch: Instr) returns (h: seq<Event>)
    ensures h == [Event(Define("a"), 0, 0, 0), Event(Space(4100), 0, 0, 0), Event(Use("a", branch), 0, 4100, 4100)]
    ensures h == Layout(FarBranch(branch), [0, 0]) && Layout(FarBranch(branch)[..0], [0, 0]) == []
    ensures Selected(FarBranch(branch)[..0]) == Selected(FarBranch(branch)[..1]) == Selected(FarBranch(branch)[..2]) == 0
  {
    hide Layout, Counter, Selected;
    var p := FarBranch(branch);
    NothingLaidOut(p);
    h := AddLine(p, 0, [], 0);
    h := AddLine(p, 1, h, 0);
    h := AddLine(p, 2, h, 4100);
    assert p[..3] == p;
  }

  lemma FarBranchIsAccepted(branch: Instr, n: nat)
    requires n < 3
    ensures Verdict(FarBranch(branch), [0, 0], n) == Accepted
  {
    hide Layout, Selected, Known, Resolved;
    var p := FarBranch(branch);
    var h := FarBranchLayout(branch);
    UndefinedHasNoAddress([], "a");
    assert p[..0] == [];
    assert Buffered(p[..0], 0) == 0;
    BufferedNext(p, 0, 0);
    BufferedNext(p, 1, 0);
  }

  /** A branch at 4100 back to a label at 0 is accepted and gets the right offset, but what is left of it in the word leads
      elsewhere. */
  lemma FarBranchIsTruncated(branch: Instr)
    requires Parsed(Use("a", branch)) && FormatOf(branch.op) == BType
    ensures var p, h := FarBranch(branch), Layout(FarBranch(branch), [0, 0]);
      && Program(p) && (forall n :: 0 <= n < 3 ==> Verdict(p, [0, 0], n) == Accepted)
      && h[2].stmt == Use("a", branch) && h[2].addr == 4100 && Resolved(h, 2) == Some(0)
      && !LeadsTo(branch.op, Truncated(branch.op, ToU32(0 - 4100)), 4100, 0)
  {
    hide Encoder.Valid, Layout, LeadsTo, Truncated, ToU32, Verdict;
    var p := FarBranch(branch);
    var h := FarBranchLayout(branch);
    forall n | 0 <= n < 3 ensures Verdict(p, [0, 0], n) == Accepted {
      FarBranchIsAccepted(branch, n);
    }
    ResolvedExactly(h, 2, 0);
    LandsExactly(branch.op, 4100, 0);
  }
}
