/** The copy that seeks over NUL bytes instead of writing them. */
module SparseCopy {

  type Byte = x: int | 0 <= x < 256

  const BUF_SIZE := 1024

  function Zeros(n: nat): (r: seq<Byte>)
    ensures |r| == n
  {
    seq(n, _ => 0)
  }

  /** `s` without its trailing run of NULs. */
  function Strip(s: seq<Byte>): seq<Byte> {
    if s == [] || s[|s| - 1] != 0 then s else Strip(s[..|s| - 1])
  }

  function NonNul(s: seq<Byte>): seq<Byte> {
    if s == [] then [] else NonNul(s[..|s| - 1]) + (if s[|s| - 1] != 0 then [s[|s| - 1]] else [])
  }

  /** What a file holds after a byte is written at an offset; a gap reads as NULs. */
  function WriteAt(content: seq<Byte>, off: nat, b: Byte): seq<Byte> {
    if off < |content| then content[off := b] else content + Zeros(off - |content|) + [b]
  }

  /** The destination: contents, file offset, and a record of the bytes written. */
  class Dest {
    var content: seq<Byte>
    var offset: nat
    ghost var written: seq<Byte>

    constructor ()
      ensures content == [] && offset == 0 && written == []
    {
      content, offset, written := [], 0, [];
    }

    /** lseek(fd, n, SEEK_CUR) */
    method SeekForward(n: nat)
      modifies this`offset
      ensures offset == old(offset) + n
    {
      offset := offset + n;
    }

    /** write(fd, &b, 1) */
    method Write(b: Byte)
      modifies this
      ensures content == WriteAt(old(content), old(offset), b)
      ensures offset == old(offset) + 1 && written == old(written) + [b]
    {
      content := WriteAt(content, offset, b);
      offset := offset + 1;
      written := written + [b];
    }
  }

  /** Between two bytes: what is in the file and the NULs held back make up what was read. */
  ghost predicate Between(content: seq<Byte>, offset: nat, held: nat, read: seq<Byte>) {
    && content + Zeros(held) == read
    && offset == |content|
    && (content == [] || content[|content| - 1] != 0)
  }

  lemma HoldNul(content: seq<Byte>, offset: nat, held: nat, read: seq<Byte>)
    requires Between(content, offset, held, read)
    ensures Between(content, offset, held + 1, read + [0])
  {
    assert Zeros(held + 1) == Zeros(held) + [0];
  }

  lemma PutByte(content: seq<Byte>, offset: nat, held: nat, read: seq<Byte>, b: Byte)
    requires Between(content, offset, held, read) && b != 0
    ensures Between(WriteAt(content, offset + held, b), offset + held + 1, 0, read + [b])
  {
    var c := WriteAt(content, offset + held, b);
    assert c == read + [b];
    assert c + Zeros(0) == c;
  }

  lemma {:induction false} StripZeros(content: seq<Byte>, held: nat)
    requires content == [] || content[|content| - 1] != 0
    ensures Strip(content + Zeros(held)) == content
  {
    var s := content + Zeros(held);
    if held == 0 {
      assert s == content;
    } else {
      assert s[..|s| - 1] == content + Zeros(held - 1);
      StripZeros(content, held - 1);
    }
  }

  /** The inner loop: the bytes of one buffer. */
  method CopyBuffer(d: Dest, buf: seq<Byte>, nullSeqLen0: nat, ghost before: seq<Byte>) returns (nullSeqLen: nat)
    requires Between(d.content, d.offset, nullSeqLen0, before)
    modifies d
    ensures Between(d.content, d.offset, nullSeqLen, before + buf)
    ensures d.written == old(d.written) + NonNul(buf)
  {
    hide Between, WriteAt;
    nullSeqLen := nullSeqLen0;
    assert before + buf[..0] == before;
    for i := 0 to |buf|
      invariant Between(d.content, d.offset, nullSeqLen, before + buf[..i])
      invariant d.written == old(d.written) + NonNul(buf[..i])
    {
      assert buf[..i + 1] == buf[..i] + [buf[i]] && before + buf[..i + 1] == (before + buf[..i]) + [buf[i]];
      if buf[i] == 0 {
        HoldNul(d.content, d.offset, nullSeqLen, before + buf[..i]);
        nullSeqLen := nullSeqLen + 1;
      } else {
        PutByte(d.content, d.offset, nullSeqLen, before + buf[..i], buf[i]);
        if nullSeqLen > 0 {
          d.SeekForward(nullSeqLen);
          d.Write(buf[i]);
          nullSeqLen := 0;
        } else {
          d.Write(buf[i]);
        }
      }
    }
    assert buf[..|buf|] == buf;
  }

  /** `cuts` is a way read() can split the source: from 0 to its end, in pieces of 1 to BUF_SIZE bytes. */
  predicate Splits(src: seq<Byte>, cuts: seq<nat>) {
    && cuts != [] && cuts[0] == 0 && cuts[|cuts| - 1] == |src|
    && (forall i :: 0 <= i < |cuts| ==> cuts[i] <= |src|)
    && (forall i {:trigger cuts[i]} :: 0 <= i < |cuts| - 1 ==> cuts[i] < cuts[i + 1] <= cuts[i] + BUF_SIZE)
  }

  /** The outer loop, for any way read() splits the source; `nullSeqLen0` is what the
      uninitialised counter happens to hold. */
  method Copy(src: seq<Byte>, cuts: seq<nat>, nullSeqLen0: nat) returns (d: Dest)
    requires Splits(src, cuts)
    ensures fresh(d)
    ensures d.content == Strip(Zeros(nullSeqLen0) + src)
    ensures d.written == NonNul(src)
  {
    hide Between, Strip, Zeros, NonNul;
    d := new Dest();
    var nullSeqLen := nullSeqLen0;
    ghost var z := Zeros(nullSeqLen0);
    assert src[..0] == [];
    NothingRead(nullSeqLen0);
    assert NonNul([]) == [] by { NonNulNothing(); }
    for i := 0 to |cuts| - 1
      invariant fresh(d)
      invariant Between(d.content, d.offset, nullSeqLen, z + src[..cuts[i]])
      invariant d.written == NonNul(src[..cuts[i]])
    {
      var buf := src[cuts[i]..cuts[i + 1]];
      assert src[..cuts[i + 1]] == src[..cuts[i]] + buf;
      NonNulConcat(src[..cuts[i]], buf);
      nullSeqLen := CopyBuffer(d, buf, nullSeqLen, z + src[..cuts[i]]);
      assert z + src[..cuts[i + 1]] == (z + src[..cuts[i]]) + buf;
    }
    assert src[..|src|] == src;
    Finish(d.content, d.offset, nullSeqLen, z + src);
  }

  /** Every source can be read. */
  lemma {:induction false} CanSplit(src: seq<Byte>) returns (cuts: seq<nat>)
    ensures Splits(src, cuts)
    decreases |src|
  {
    if src == [] {
      cuts := [0];
    } else {
      var n := |src| - 1;
      cuts := CanSplit(src[..n]);
      cuts := cuts + [|src|];
    }
  }

  lemma NonNulNothing()
    ensures NonNul([]) == []
  {
  }

  lemma NothingRead(n: nat)
    ensures Between([], 0, n, Zeros(n) + [])
  {
  }

  lemma Finish(content: seq<Byte>, offset: nat, held: nat, read: seq<Byte>)
    requires Between(content, offset, held, read)
    ensures content == Strip(read)
  {
    StripZeros(content, held);
  }

  lemma {:induction false} NonNulConcat(a: seq<Byte>, b: seq<Byte>)
    ensures NonNul(a + b) == NonNul(a) + NonNul(b)
  {
    if b == [] {
      assert a + b == a;
    } else {
      assert (a + b)[..|a + b| - 1] == a + b[..|b| - 1];
      NonNulConcat(a, b[..|b| - 1]);
    }
  }

  /** No NUL is ever written, and every other byte as often as it is read. */
  lemma {:induction false} NonNulHasNone(s: seq<Byte>)
    ensures 0 !in NonNul(s)
    ensures forall b: Byte :: b != 0 ==> multiset(NonNul(s))[b] == multiset(s)[b]
  {
    if s != [] {
      NonNulHasNone(s[..|s| - 1]);
      assert s == s[..|s| - 1] + [s[|s| - 1]];
    }
  }

  lemma ZerosSnoc(n: nat)
    ensures Zeros(n + 1) == Zeros(n) + [0]
  {
  }

  /** What was stripped is NULs, and what is left does not end in one. */
  lemma {:induction false} StripSplits(s: seq<Byte>)
    ensures |Strip(s)| <= |s| && s == Strip(s) + Zeros(|s| - |Strip(s)|)
    ensures Strip(s) == [] || Strip(s)[|Strip(s)| - 1] != 0
  {
    hide Zeros;
    if s == [] || s[|s| - 1] != 0 {
      assert s == s + Zeros(0);
    } else {
      var r := s[..|s| - 1];
      var n := |r| - |Strip(r)|;
      StripSplits(r);
      ZerosSnoc(n);
      assert s == r + [0] == Strip(r) + Zeros(n + 1);
    }
  }

  /** The copy reads back as the source exactly when the source is empty, or the counter started
      at 0 and the source does not end in NUL. */
  lemma FaithfulIff(src: seq<Byte>, nullSeqLen0: nat)
    ensures Strip(Zeros(nullSeqLen0) + src) == src <==> src == [] || (nullSeqLen0 == 0 && src[|src| - 1] != 0)
  {
    var w := Zeros(nullSeqLen0) + src;
    StripSplits(w);
    if src == [] {
      assert w == [] + Zeros(nullSeqLen0);
      StripZeros([], nullSeqLen0);
    } else {
      assert w[|w| - 1] == src[|src| - 1];
      if nullSeqLen0 == 0 { assert w == src; }
    }
  }

  /** Started at 0, the copy differs from the source only by trailing NULs. */
  lemma OnlyTrailingNulsLost(src: seq<Byte>)
    ensures var c := Strip(Zeros(0) + src);
      |c| <= |src| && src == c + Zeros(|src| - |c|)
  {
    assert Zeros(0) + src == src;
    StripSplits(src);
  }
}
