/** One section's output: a buffer of 4096 bytes and the file it is flushed to (emitter.h:47-57, emitter.c:23-63). */
module Sections {
  import opened Encoder
  import opened Labels

  const BUFFER_SIZE: nat := 4096

  /** What emitter_buffer's loop loses: every time the buffer fills up, the bytes that filled it (emitter.c:37-44). */
  function Lost(pos: nat, n: nat): (lost: nat)
    requires pos < BUFFER_SIZE
    ensures lost <= n
    decreases n
  {
    if pos + n < BUFFER_SIZE then 0 else BUFFER_SIZE - pos + Lost(0, n - (BUFFER_SIZE - pos))
  }

  /** Nothing is lost exactly when the buffer does not fill up; else only what goes into the last buffer survives. */
  lemma {:induction false} LostExactly(pos: nat, n: nat)
    requires pos < BUFFER_SIZE
    ensures Lost(pos, n) == 0 <==> pos + n < BUFFER_SIZE
    ensures n - Lost(pos, n) == if pos + n < BUFFER_SIZE then n else (pos + n) % BUFFER_SIZE
    decreases n
  {
    if pos + n >= BUFFER_SIZE {
      LostExactly(0, n - (BUFFER_SIZE - pos));
    }
  }

  /** What emitter_buffer puts out of the data. */
  function Kept(pos: nat, data: seq<bv8>): (kept: seq<bv8>)
    requires pos < BUFFER_SIZE
    ensures pos + |data| < BUFFER_SIZE ==> kept == data
  {
    LostExactly(pos, |data|);
    data[Lost(pos, |data|)..]
  }

  lemma KeptAfterSpill(pos: nat, data: seq<bv8>)
    requires pos < BUFFER_SIZE && pos + |data| >= BUFFER_SIZE
    ensures Kept(pos, data) == Kept(0, data[BUFFER_SIZE - pos..])
  {}

  /** set_btype_imm or set_jtype_imm. */
  function SetImm(jump: bool, w: bv32, offset: bv32): bv32 {
    if jump then SetJImm(w, offset) else SetBImm(w, offset)
  }

  function Splice(out: seq<bv8>, at: nat, piece: seq<bv8>): (r: seq<bv8>)
    requires at + |piece| <= |out|
    ensures |r| == |out|
  {
    out[..at] + piece + out[at + |piece|..]
  }

  /** A splice into what is still buffered, seen from the whole output. */
  lemma SpliceBuffered(file: seq<bv8>, buf: seq<bv8>, len: nat, at: nat, piece: seq<bv8>)
    requires at + |piece| <= len <= |buf|
    ensures Splice(file + buf[..len], |file| + at, piece) == file + Splice(buf, at, piece)[..len]
    ensures (file + buf[..len])[|file| + at..|file| + at + |piece|] == buf[at..at + |piece|]
  {
    assert (file + buf[..len])[..|file| + at] == file + buf[..at];
    assert (file + buf[..len])[|file| + at + |piece|..] == buf[at + |piece|..len];
  }

  class Section {
    const buf: array<bv8>
    const vaddr: nat
    var len: nat
    var pos: nat
    ghost var file: seq<bv8>

    ghost predicate Valid()
      reads this
    {
      buf.Length == BUFFER_SIZE && len < BUFFER_SIZE && |file| + len == pos
    }

    /** What has been put out so far. */
    ghost function Out(): (out: seq<bv8>)
      reads this, buf
      requires Valid()
      ensures |out| == pos
    {
      file + buf[..len]
    }

    constructor (vaddr: nat)
      ensures Valid() && Out() == [] && len == 0 && this.vaddr == vaddr && fresh(buf)
    {
      buf := new bv8[BUFFER_SIZE];
      this.vaddr := vaddr;
      len, pos, file := 0, 0, [];
    }

    /** emitter_clear_buffer: writes the buffer out. */
    method ClearBuffer()
      requires Valid()
      modifies this`len, this`file
      ensures Valid() && Out() == old(Out()) && len == 0
    {
      file := file + buf[..len];
      len := 0;
    }

    method Copy(at: nat, data: seq<bv8>)
      requires at + |data| <= buf.Length
      modifies buf
      ensures buf[..] == Splice(old(buf[..]), at, data)
    {
      forall k | 0 <= k < |data| {
        buf[at + k] := data[k];
      }
    }

    /** Bytes that fit into the buffer. */
    method Fill(data: seq<bv8>)
      requires Valid() && len + |data| < BUFFER_SIZE
      modifies this`len, this`pos, buf
      ensures Valid() && Out() == old(Out()) + data && len == old(len) + |data|
    {
      Copy(len, data);
      len := len + |data|;
      pos := pos + |data|;
    }

    /** One round of emitter_buffer's loop (emitter.c:38-43): only what was in the buffer before is written out. */
    method Spill(data: seq<bv8>) returns (rest: seq<bv8>)
      requires Valid() && len + |data| >= BUFFER_SIZE
      modifies this`len, this`file, buf
      ensures Valid() && Out() == old(Out()) && len == 0
      ensures rest == data[BUFFER_SIZE - old(len)..]
    {
      var copy := BUFFER_SIZE - len;
      Copy(len, data[..copy]);
      ClearBuffer();
      rest := data[copy..];
    }

    /** emitter_buffer. */
    method Buffer(data: seq<bv8>)
      requires Valid()
      modifies this, buf
      ensures Valid()
      ensures Out() == old(Out()) + Kept(old(len), data)
      ensures old(len) + |data| < BUFFER_SIZE ==> file == old(file) && len == old(len) + |data|
    {
      hide Kept;
      var rest := data;
      while len + |rest| >= BUFFER_SIZE
        invariant Valid() && Out() == old(Out())
        invariant Kept(len, rest) == Kept(old(len), data)
        invariant old(len) + |data| < BUFFER_SIZE ==> len == old(len) && rest == data && file == old(file)
        decreases |rest|
      {
        KeptAfterSpill(len, rest);
        rest := Spill(rest);
      }
      Fill(rest);
    }

    /** emitter_advance. */
    method Advance(n: nat)
      requires Valid()
      modifies this, buf
      ensures Valid()
      ensures Out() == old(Out()) + Zeros(n)
      ensures |Out()| == old(|Out()|) + n && forall k :: old(|Out()|) <= k < |Out()| ==> Out()[k] == 0
      ensures if old(len) + n < BUFFER_SIZE then file == old(file) && len == old(len) + n else |file| == pos && len == 0
    {
      if len + n >= BUFFER_SIZE {
        ClearBuffer();
        file := file + Zeros(n);
        pos := pos + n;
      } else {
        Fill(Zeros(n));
      }
    }

    /** Data, and padding after it. */
    method Store(data: seq<bv8>, pad: nat)
      requires Valid()
      modifies this, buf
      ensures Valid() && Out() == old(Out()) + (Kept(old(len), data) + Zeros(pad))
      ensures forall k :: |Out()| - pad <= k < |Out()| ==> Out()[k] == 0
      ensures old(len) + |data| < BUFFER_SIZE ==>
                if old(len) + |data| + pad < BUFFER_SIZE then file == old(file) && len == old(len) + |data| + pad
                else |file| == pos && len == 0
    {
      hide Kept, Zeros;
      Buffer(data);
      Advance(pad);
    }

    /** The else-branch of emitter_label_add's loop: rewrites a word that is still in the buffer (emitter.c:87-110). */
    method Patch(fix: nat, jump: bool, offset: bv32)
      requires Valid() && |file| <= fix && fix + 4 <= pos
      modifies buf
      ensures Valid() && file == old(file)
      ensures Out() == Splice(old(Out()), fix, Bytes(SetImm(jump, FromBytes(old(Out())[fix..fix + 4]), offset)))
    {
      hide SetImm, FromBytes, Bytes, Splice;
      var target := len - (pos - fix);
      SpliceBuffered(file, buf[..], len, target, buf[target..target + 4]);
      var instr := SetImm(jump, FromBytes(buf[target..target + 4]), offset);
      SpliceBuffered(file, buf[..], len, target, Bytes(instr));
      Copy(target, Bytes(instr));
    }
  }
}
