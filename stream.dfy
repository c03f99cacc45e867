/**
 * The streaming layer both engines share: a block buffer `b`, a cursor `c`,
 * a byte counter `t` and a chained state `h`. `update` absorbs one byte at a
 * time and compresses a full buffer (not as the last block) only once a
 * further byte arrives; `hash` pads what is buffered with zeros and
 * compresses it as the last block.
 *
 * The section proves that this buffering computes the block-by-block
 * definition of section 3.3 of RFC 7693 (Reference) of the whole byte stream
 * absorbed, however it was split into calls.
 */
module Stream {
  import opened Common
  import opened Wrappers

  /**
   * A compression function: chained state, one block, the byte counter and
   * the last-block flag to the next chained state.
   */
  type Compressor = (seq<nat>, seq<Byte>, nat, bool) -> seq<nat>

  /** Buffer, cursor, byte counter and chained state. */
  datatype Engine = Engine(b: seq<Byte>, c: nat, t: nat, h: seq<nat>)

  predicate WellFormed(bb: nat, s: Engine)
  {
    bb > 0 && |s.b| == bb && s.c <= bb
  }

  function Zeros(n: nat): (r: seq<Byte>)
    ensures |r| == n && forall i | 0 <= i < n :: r[i] == 0
  {
    seq(n, _ => 0)
  }

  /** A fresh engine: zeroed buffer, nothing absorbed, state h0. */
  function Start(bb: nat, h0: seq<nat>): (s: Engine)
    requires bb > 0
    ensures WellFormed(bb, s) && s.c == 0 && s.t == 0
  {
    Engine(Zeros(bb), 0, 0, h0)
  }

  /** One byte of `update`: a full buffer is first counted and compressed as a non-final block. */
  function AbsorbByte(bb: nat, cf: Compressor, s: Engine, x: Byte): (r: Engine)
    requires WellFormed(bb, s)
    ensures WellFormed(bb, r) && 1 <= r.c
    ensures r.t + r.c == s.t + s.c + 1
  {
    if s.c == bb then
      var t := s.t + bb;
      Engine(s.b[0 := x], 1, t, cf(s.h, s.b, t, false))
    else
      Engine(s.b[s.c := x], s.c + 1, s.t, s.h)
  }

  /** A byte arriving at a full buffer: the held block is compressed (not last) and the byte starts a new block. */
  lemma AbsorbByteFull(bb: nat, cf: Compressor, s: Engine, x: Byte, h: seq<nat>)
    requires WellFormed(bb, s) && s.c == bb && h == cf(s.h, s.b, s.t + bb, false)
    ensures AbsorbByte(bb, cf, s, x) == Engine(s.b[0 := x], 1, s.t + bb, h)
  {
  }

  /** The bytes of data absorbed in order. */
  function Absorb(bb: nat, cf: Compressor, s: Engine, data: seq<Byte>): (r: Engine)
    requires WellFormed(bb, s)
    ensures WellFormed(bb, r)
    ensures r.t + r.c == s.t + s.c + |data|
    ensures |data| > 0 ==> 1 <= r.c
  {
    if |data| == 0 then s else AbsorbByte(bb, cf, Absorb(bb, cf, s, data[..|data| - 1]), data[|data| - 1])
  }

  /** Absorbing x and then y is absorbing x ++ y: how the input is split into calls does not matter. */
  lemma {:induction false} AbsorbAppend(bb: nat, cf: Compressor, s: Engine, x: seq<Byte>, y: seq<Byte>)
    requires WellFormed(bb, s)
    ensures Absorb(bb, cf, s, x + y) == Absorb(bb, cf, Absorb(bb, cf, s, x), y)
    decreases |y|
  {
    if |y| == 0 {
      assert x + y == x;
    } else {
      var y' := y[..|y| - 1];
      assert (x + y)[..|x + y| - 1] == x + y';
      AbsorbAppend(bb, cf, s, x, y');
    }
  }

  /** Absorbing bytes that fit in the buffer writes them at the cursor and compresses nothing. */
  lemma {:induction false} AbsorbFits(bb: nat, cf: Compressor, s: Engine, x: seq<Byte>)
    requires WellFormed(bb, s) && s.c + |x| <= bb
    ensures Absorb(bb, cf, s, x) == Engine(s.b[..s.c] + x + s.b[s.c + |x|..], s.c + |x|, s.t, s.h)
    decreases |x|
  {
    if |x| == 0 {
      assert s.b[..s.c] + x + s.b[s.c..] == s.b;
    } else {
      var x' := x[..|x| - 1];
      AbsorbFits(bb, cf, s, x');
      var k := s.c + |x'|;
      assert (s.b[..s.c] + x' + s.b[k..])[k := x[|x| - 1]] == s.b[..s.c] + x + s.b[k + 1..];
    }
  }

  /** Whether n bytes are a whole number of blocks. */
  predicate Aligned(bb: nat, n: nat)
    requires bb > 0
  {
    n == 0 || (n >= bb && Aligned(bb, n - bb))
  }

  /** The whole blocks of P compressed in order as non-final blocks, the counter advancing by a block each time. */
  function Chain(bb: nat, cf: Compressor, h: seq<nat>, P: seq<Byte>, t: nat): (r: seq<nat>)
    requires bb > 0
    decreases |P|
  {
    if |P| < bb then h
    else
      var t' := t + bb;
      Chain(bb, cf, cf(h, P[..bb], t', false), P[bb..], t')
  }

  /**
   * The hash of M from state h per section 3.3 of RFC 7693: every block but
   * the last is compressed non-final; the last block (a zero block when M is
   * empty) is zero-padded and compressed with the last-block flag, the
   * counter then being the total number of bytes.
   */
  function Reference(bb: nat, cf: Compressor, h: seq<nat>, M: seq<Byte>, t: nat): (r: seq<nat>)
    requires bb > 0
    decreases |M|
  {
    if |M| <= bb then
      cf(h, M + Zeros(bb - |M|), t + |M|, true)
    else
      var t' := t + bb;
      Reference(bb, cf, cf(h, M[..bb], t', false), M[bb..], t')
  }

  /** A compressor that keeps states of n words at n words gives a hash of n words. */
  lemma {:induction false} ReferenceLength(bb: nat, cf: Compressor, h: seq<nat>, M: seq<Byte>, t: nat, n: nat)
    requires bb > 0 && |h| == n
    requires forall h', block, t', last :: |h'| == n ==> |cf(h', block, t', last)| == n
    ensures |Reference(bb, cf, h, M, t)| == n
    decreases |M|
  {
    if |M| > bb {
      ReferenceLength(bb, cf, cf(h, M[..bb], t + bb, false), M[bb..], t + bb, n);
    }
  }

  /**
   * The engine state s stands for the stream M absorbed from state h0: the
   * counter covers the whole blocks already compressed into h, the buffer
   * holds the remaining bytes, and it is never empty once something has been
   * absorbed (the last block is held back for `hash`).
   */
  predicate Represents(bb: nat, cf: Compressor, s: Engine, h0: seq<nat>, M: seq<Byte>)
  {
    && WellFormed(bb, s)
    && s.t + s.c == |M|
    && Aligned(bb, s.t)
    && s.h == Chain(bb, cf, h0, M[..s.t], 0)
    && s.b[..s.c] == M[s.t..]
    && (|M| > 0 ==> s.c > 0)
  }

  lemma {:induction false} ChainAppend(bb: nat, cf: Compressor, h: seq<nat>, P: seq<Byte>, Q: seq<Byte>, t: nat)
    requires bb > 0 && Aligned(bb, |P|)
    ensures Chain(bb, cf, h, P + Q, t) == Chain(bb, cf, Chain(bb, cf, h, P, t), Q, t + |P|)
    decreases |P|
  {
    if |P| > 0 {
      var n := bb;
      assert (P + Q)[..n] == P[..n] && (P + Q)[n..] == P[n..] + Q;
      ChainAppend(bb, cf, cf(h, P[..n], t + n, false), P[n..], Q, t + n);
    } else {
      assert P + Q == Q;
    }
  }

  lemma {:induction false} ReferenceAppend(bb: nat, cf: Compressor, h: seq<nat>, P: seq<Byte>, R: seq<Byte>, t: nat)
    requires bb > 0 && Aligned(bb, |P|) && |R| > 0
    ensures Reference(bb, cf, h, P + R, t) == Reference(bb, cf, Chain(bb, cf, h, P, t), R, t + |P|)
    decreases |P|
  {
    if |P| > 0 {
      var n := bb;
      assert (P + R)[..n] == P[..n] && (P + R)[n..] == P[n..] + R;
      ReferenceAppend(bb, cf, cf(h, P[..n], t + n, false), P[n..], R, t + n);
    } else {
      assert P + R == R;
    }
  }

  /** A fresh engine stands for the empty stream. */
  lemma StartRepresents(bb: nat, cf: Compressor, h0: seq<nat>)
    requires bb > 0
    ensures Represents(bb, cf, Start(bb, h0), h0, [])
  {
  }

  /** Absorbing a byte extends the stream by that byte. */
  lemma AbsorbByteRepresents(bb: nat, cf: Compressor, s: Engine, h0: seq<nat>, M: seq<Byte>, x: Byte)
    requires Represents(bb, cf, s, h0, M)
    ensures Represents(bb, cf, AbsorbByte(bb, cf, s, x), h0, M + [x])
  {
    var n := bb;
    var M' := M + [x];
    var r := AbsorbByte(bb, cf, s, x);
    if s.c == n {
      assert M'[..s.t + n] == M[..s.t] + s.b;
      ChainAppend(bb, cf, h0, M[..s.t], s.b, 0);
      assert Chain(bb, cf, s.h, s.b, s.t) == cf(s.h, s.b, s.t + n, false) by {
        assert s.b[n..] == [];
      }
      assert Aligned(bb, s.t + n);
      assert r.b[..1] == [x] == M'[r.t..];
    } else {
      assert M'[..s.t] == M[..s.t];
      assert r.b[..r.c] == s.b[..s.c] + [x];
    }
  }

  /** Absorbing data extends the stream by data. */
  lemma {:induction false} AbsorbRepresents(bb: nat, cf: Compressor, s: Engine, h0: seq<nat>, M: seq<Byte>, data: seq<Byte>)
    requires Represents(bb, cf, s, h0, M)
    ensures Represents(bb, cf, Absorb(bb, cf, s, data), h0, M + data)
    decreases |data|
  {
    if |data| > 0 {
      var d' := data[..|data| - 1];
      AbsorbRepresents(bb, cf, s, h0, M, d');
      AbsorbByteRepresents(bb, cf, Absorb(bb, cf, s, d'), h0, M + d', data[|data| - 1]);
      assert data == d' + [data[|data| - 1]];
      assert M + d' + [data[|data| - 1]] == M + data;
    } else {
      assert M + data == M;
    }
  }

  /** What `hash` compresses: the buffered bytes zero-padded, flagged last, counter advanced by the cursor. */
  function Finish(bb: nat, cf: Compressor, s: Engine): (r: seq<nat>)
    requires WellFormed(bb, s)
  {
    cf(s.h, s.b[..s.c] + Zeros(bb - s.c), s.t + s.c, true)
  }

  /** Finishing applies the compression function to the zero-padded buffer, as the last block. */
  lemma FinishApply(bb: nat, cf: Compressor, s: Engine)
    requires WellFormed(bb, s)
    ensures Finish(bb, cf, s) == cf(s.h, s.b[..s.c] + Zeros(bb - s.c), s.t + s.c, true)
  {
  }

  /** Finishing an engine that stands for M yields the section 3.3 hash of M. */
  lemma FinishIsReference(bb: nat, cf: Compressor, s: Engine, h0: seq<nat>, M: seq<Byte>)
    requires Represents(bb, cf, s, h0, M)
    ensures Finish(bb, cf, s) == Reference(bb, cf, h0, M, 0)
  {
    if |M| == 0 {
      assert s.b[..s.c] == [] && M[..s.t] == [];
    } else {
      assert M == M[..s.t] + M[s.t..];
      ReferenceAppend(bb, cf, h0, M[..s.t], M[s.t..], 0);
    }
  }

  /** The first block when a key is given: the key zero-padded to a whole block (section 3.3 of RFC 7693). */
  function KeyBlock(bb: nat, key: seq<Byte>): (r: seq<Byte>)
    requires bb > 0 && |key| <= bb
    ensures |r| == bb && r[..|key|] == key
  {
    key + Zeros(bb - |key|)
  }

  /** What a constructor absorbs: the key block when a key is given, then the data. */
  function InitialMessage(bb: nat, key: Option<seq<Byte>>, data: Option<seq<Byte>>): seq<Byte>
    requires bb > 0 && (key.Some? ==> |key.value| <= bb)
  {
    (if key.Some? then KeyBlock(bb, key.value) else [])
    + (if data.Some? then data.value else [])
  }

  /**
   * A key is absorbed into a fresh engine and the cursor then forced to a full
   * buffer: the engine then stands for the zero-padded key block, even for an
   * empty key.
   */
  lemma KeyedRepresents(bb: nat, cf: Compressor, h0: seq<nat>, key: seq<Byte>)
    requires bb > 0 && |key| <= bb
    ensures Represents(bb, cf, Absorb(bb, cf, Start(bb, h0), key).(c := bb), h0, KeyBlock(bb, key))
  {
    var s := Start(bb, h0);
    AbsorbFits(bb, cf, s, key);
    var r := Absorb(bb, cf, s, key).(c := bb);
    assert r.b == key + s.b[|key|..];
    assert r.b[..r.c] == KeyBlock(bb, key);
  }
}
