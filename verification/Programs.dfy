/** Whole programs: what the first pass makes of the lines, when one pass is enough, and how far a run gets. */
module Programs {
  import opened Options
  import opened Encoder
  import opened Offsets
  import opened Labels

  predicate Program(p: seq<Statement>) {
    forall k {:trigger p[k]} :: 0 <= k < |p| ==> Parsed(p[k])
  }

  /** The section that the lines so far have selected. */
  function Selected(p: seq<Statement>): nat {
    if p == [] then 0
    else match p[|p| - 1]
      case Section(s) => s
      case _ => Selected(p[..|p| - 1])
  }

  /** The first pass: where every line goes. */
  function Layout(p: seq<Statement>, base: seq<nat>): (h: seq<Event>)
    requires |base| == 2
    ensures |h| == |p|
  {
    if p == [] then []
    else
      var h, sec := Layout(p[..|p| - 1], base), Selected(p[..|p| - 1]);
      var at := Counter(h, sec);
      h + [Event(p[|p| - 1], sec, at, at + if sec == 0 then base[0] else base[1])]
  }

  lemma LayoutNext(p: seq<Statement>, base: seq<nat>, n: nat)
    requires |base| == 2 && n < |p|
    ensures var h, sec := Layout(p[..n], base), Selected(p[..n]);
      var at := Counter(h, sec);
      Layout(p[..n + 1], base) == h + [Event(p[n], sec, at, at + if sec == 0 then base[0] else base[1])]
    ensures Selected(p[..n + 1]) == if p[n].Section? then p[n].sec else Selected(p[..n])
  {
    hide Counter;
    var q := p[..n + 1];
    assert q[..|q| - 1] == p[..n] && q[|q| - 1] == p[n];
  }

  /** What two passes put into a section. */
  function Reference(p: seq<Statement>, base: seq<nat>, sec: nat): seq<bv8>
    requires |base| == 2
  {
    Image(Layout(p, base), TwoPass(Layout(p, base)), sec)
  }

  lemma {:induction false} LayoutIsLaidOut(p: seq<Statement>, base: seq<nat>)
    requires |base| == 2 && Program(p)
    ensures Selected(p) < 2 && LaidOut(Layout(p, base), base)
    ensures forall k {:trigger p[k]} {:trigger Layout(p, base)[k]} :: 0 <= k < |p| ==> Layout(p, base)[k].stmt == p[k]
  {
    hide Counter, Parsed;
    if p != [] {
      var n := |p| - 1;
      var before, h := Layout(p[..n], base), Layout(p, base);
      LayoutIsLaidOut(p[..n], base);
      assert h[..n] == before;
      SectionIsParsed(p[n]);
      forall k | 0 <= k < |h|
        ensures h[k].sec < 2 && h[k].at == Counter(h[..k], h[k].sec) && h[k].addr == base[h[k].sec] + h[k].at
      {
        if k < n {
          assert h[k] == before[k] && h[..k] == before[..k];
        }
      }
      forall k | 0 <= k < |p| ensures h[k].stmt == p[k] {
        if k < n { assert h[k] == before[k] && p[..n][k] == p[k]; }
      }
    }
  }

  lemma SectionIsParsed(st: Statement)
    requires Parsed(st)
    ensures st.Section? ==> st.sec < 2
  {}

  predicate DefinedOnce(p: seq<Statement>) {
    forall d, e {:trigger p[d], p[e]} :: 0 <= d < e < |p| && p[d].Define? ==> p[e] != p[d]
  }

  /** The label of line d is used above it and below it. */
  predicate UsedAround(p: seq<Statement>, d: nat) {
    && d < |p| && p[d].Define?
    && (exists i :: 0 <= i < d && p[i].Use? && p[i].name == p[d].name)
    && (exists j :: d < j < |p| && p[j].Use? && p[j].name == p[d].name)
  }

  predicate NoneAround(p: seq<Statement>) {
    forall d {:trigger UsedAround(p, d)} :: 0 <= d < |p| ==> !UsedAround(p, d)
  }

  lemma LayoutIsUnique(p: seq<Statement>, base: seq<nat>)
    requires |base| == 2 && Program(p) && DefinedOnce(p)
    ensures Unique(Layout(p, base))
  {
    var h := Layout(p, base);
    LayoutIsLaidOut(p, base);
    forall d, e | 0 <= d < e < |h| && h[d].stmt.Define? ensures !Defines(h[e], h[d].stmt.name) {
      assert p[d] == h[d].stmt && p[e] == h[e].stmt;
    }
  }

  /** For a program: one pass resolves every operand as two passes do if and only if no label is used around its
      definition. */
  lemma OnePassSuffices(p: seq<Statement>, base: seq<nat>)
    requires |base| == 2 && Program(p) && DefinedOnce(p)
    ensures var h := Layout(p, base);
      OnePass(h) == TwoPass(h) <==> NoneAround(p)
  {
    var h := Layout(p, base);
    LayoutIsLaidOut(p, base);
    LayoutIsUnique(p, base);
    OnePassIsTwoPass(h);
    forall d | 0 <= d < |p| ensures Straddled(h, d) <==> UsedAround(p, d) {
      AroundIsStraddled(p, h, d);
    }
  }

  lemma AroundIsStraddled(p: seq<Statement>, h: seq<Event>, d: nat)
    requires |h| == |p| && d < |p| && forall k {:trigger h[k]} :: 0 <= k < |p| ==> h[k].stmt == p[k]
    ensures Straddled(h, d) <==> UsedAround(p, d)
  {
    if Straddled(h, d) {
      var i :| 0 <= i < d && Uses(h[i], h[d].stmt.name);
      var j :| d < j < |h| && Uses(h[j], h[d].stmt.name);
      assert p[i] == h[i].stmt && p[j] == h[j].stmt;
    }
    if UsedAround(p, d) {
      var i :| 0 <= i < d && p[i].Use? && p[i].name == p[d].name;
      var j :| d < j < |p| && p[j].Use? && p[j].name == p[d].name;
      assert Uses(h[i], h[d].stmt.name) && Uses(h[j], h[d].stmt.name);
    }
  }

  /** What one pass puts into a section. */
  function OnePassImage(p: seq<Statement>, base: seq<nat>, sec: nat): seq<bv8>
    requires |base| == 2
  {
    Image(Layout(p, base), OnePass(Layout(p, base)), sec)
  }

  /** Both sections are what two passes make of them. */
  predicate Agrees(p: seq<Statement>, base: seq<nat>)
    requires |base| == 2
  {
    && OnePassImage(p, base, 0) == Reference(p, base, 0)
    && OnePassImage(p, base, 1) == Reference(p, base, 1)
  }

  /** The output of one pass is that of two if and only if every use that follows the definition of a label used before it
      can do without its offset. */
  lemma OutputIsTwoPassExactly(p: seq<Statement>, base: seq<nat>)
    requires |base| == 2 && Program(p) && DefinedOnce(p)
    ensures Agrees(p, base) <==> AllHarmless(Layout(p, base))
  {
    hide Image, Parsed, AllHarmless;
    LayoutIsLaidOut(p, base);
    LayoutIsUnique(p, base);
    OutputExactly(Layout(p, base));
  }

  /** Offsets that the formats can express. */
  predicate InReach(h: seq<Event>) {
    forall d, j {:trigger h[d], h[j]} :: 0 <= d < |h| && 0 <= j < |h| && h[d].stmt.Define? && Uses(h[j], h[d].stmt.name) ==>
      (h[d].addr - h[j].addr) % 2 == 0
      && -ReachOf(h[j].stmt.instr.op) <= h[d].addr - h[j].addr < ReachOf(h[j].stmt.instr.op)
  }

  /** Every use that follows the definition of a label used before it stands at that label. */
  predicate AllHere(h: seq<Event>) {
    forall d, j {:trigger h[d], h[j]} :: 0 <= d < j < |h| && UsedBefore(h, d) && Uses(h[j], h[d].stmt.name) ==>
      h[j].addr == h[d].addr
  }

  lemma HarmlessIsHere(h: seq<Event>, d: nat, j: nat)
    requires InReach(h) && d < |h| && j < |h| && h[d].stmt.Define? && Uses(h[j], h[d].stmt.name) && Parsed(h[j].stmt)
    ensures Harmless(h[j], h[d].addr) <==> h[j].addr == h[d].addr
  {
    hide Parsed, Harmless;
    HarmlessExactly(h[j], h[d].addr);
  }

  /** With even offsets in reach: if and only if every such use stands at the label itself. */
  lemma OutputInReachExactly(p: seq<Statement>, base: seq<nat>)
    requires |base| == 2 && Program(p) && DefinedOnce(p) && InReach(Layout(p, base))
    ensures Agrees(p, base) <==> AllHere(Layout(p, base))
  {
    hide Agrees, Parsed, Harmless, UsedBefore, Layout, InReach, LaidOut;
    var h := Layout(p, base);
    OutputIsTwoPassExactly(p, base);
    LayoutIsLaidOut(p, base);
    UsedBeforeDefines(h);
    forall d, j | 0 <= d < j < |h| && UsedBefore(h, d) && Uses(h[j], h[d].stmt.name)
      ensures Harmless(h[j], h[d].addr) <==> h[j].addr == h[d].addr
    {
      assert Parsed(p[j]);
      HarmlessIsHere(h, d, j);
    }
  }

  // ---------- a program that goes wrong ----------

  /** Jump to a label, define it, do something, jump to it again. */
  function LoopTwice(jump: Instr, other: Instr): seq<Statement> {
    [Use("a", jump), Define("a"), Operation(other), Use("a", jump)]
  }

  lemma LoopTwiceLayout(jump: Instr, other: Instr)
    ensures Layout(LoopTwice(jump, other), [0, 0]) ==
            [Event(Use("a", jump), 0, 0, 0), Event(Define("a"), 0, 4, 4), Event(Operation(other), 0, 4, 4),
             Event(Use("a", jump), 0, 8, 8)]
  {
    hide Layout, Counter, Selected;
    var p := LoopTwice(jump, other);
    NothingLaidOut(p);
    var h := AddLine(p, 0, [], 0);
    h := AddLine(p, 1, h, 4);
    h := AddLine(p, 2, h, 4);
    h := AddLine(p, 3, h, 8);
    assert p[..4] == p;
  }

  lemma NothingLaidOut(p: seq<Statement>)
    ensures Layout(p[..0], [0, 0]) == [] && Selected(p[..0]) == 0 && Counter([], 0) == 0
  {}

  /** One more line of the text section, at address at. */
  lemma AddLine(p: seq<Statement>, n: nat, h: seq<Event>, at: nat) returns (h': seq<Event>)
    requires n < |p| && !p[n].Section?
    requires Layout(p[..n], [0, 0]) == h && Selected(p[..n]) == 0 && Counter(h, 0) == at
    ensures h' == h + [Event(p[n], 0, at, at)]
    ensures Layout(p[..n + 1], [0, 0]) == h' && Selected(p[..n + 1]) == 0 && Counter(h', 0) == at + SizeOf(p[n])
  {
    LayoutNext(p, [0, 0], n);
    h' := Layout(p[..n + 1], [0, 0]);
    assert h'[..n] == h;
  }

  /** The second jump should go back by 4; one pass leaves its offset out, and the output is wrong. */
  lemma SecondUseIsWrong(jump: Instr, other: Instr)
    requires Valid(jump) && TakesLabel(jump.op) && jump.imm == 0 && Valid(other) && !TakesLabel(other.op)
    ensures var p := LoopTwice(jump, other);
      Program(p) && DefinedOnce(p) && OnePassImage(p, [0, 0], 0) != Reference(p, [0, 0], 0)
  {
    hide Valid, Harmless, Image;
    var p, base := LoopTwice(jump, other), [0, 0];
    var h := Layout(p, base);
    LoopTwiceLayout(jump, other);
    OutputIsTwoPassExactly(p, base);
    assert Uses(h[0], "a") && UsedBefore(h, 1) && Uses(h[3], "a");
    assert Parsed(h[3].stmt);
    HarmlessExactly(h[3], 4);
    NothingInData(h, OnePass(h));
    NothingInData(h, TwoPass(h));
  }

  lemma {:induction false} NothingInData(h: seq<Event>, ts: seq<Option<nat>>)
    requires |ts| >= |h| && forall k :: 0 <= k < |h| ==> h[k].sec == 0
    ensures Image(h, ts, 1) == []
  {
    hide Piece;
    if h != [] {
      NothingInData(h[..|h| - 1], ts);
    }
  }
}
