/** The T31 stream API of src/hal/imp/imp_t31.c (lines 163-227): an encoder stream is a list of
    packs that lie in a circular buffer. */
module HalStream {
  import opened Common
  import opened Outside

  datatype Pack = Pack(offset: nat, length: nat, timestampUs: nat)

  /** `IMPEncoderStream`: `ring` is the `streamSize` bytes at `virAddr`. */
  datatype EncoderStream = EncoderStream(ring: seq<byte>, packs: seq<Pack>)

  /** What the SDK gives: offsets and lengths do not exceed the stream buffer. */
  ghost predicate PacksFit(st: EncoderStream) {
    forall i :: 0 <= i < |st.packs| ==> st.packs[i].offset <= |st.ring| && st.packs[i].length <= |st.ring|
  }

  /** `length` bytes of a circular buffer from `offset` on. */
  function Gather(ring: seq<byte>, offset: nat, length: nat): seq<byte>
    requires length <= |ring|
  {
    seq(length, k requires 0 <= k < length => ring[(offset + k) % |ring|])
  }

  /** The first `n` packs, unrolled and concatenated. */
  function Assembled(st: EncoderStream, n: nat): seq<byte>
    requires PacksFit(st) && n <= |st.packs|
  {
    if n == 0 then [] else Assembled(st, n - 1) + Gather(st.ring, st.packs[n - 1].offset, st.packs[n - 1].length)
  }

  function TotalLength(packs: seq<Pack>): nat {
    if packs == [] then 0 else TotalLength(packs[..|packs| - 1]) + packs[|packs| - 1].length
  }

  lemma {:induction false} AssembledLength(st: EncoderStream, n: nat)
    requires PacksFit(st) && n <= |st.packs|
    ensures |Assembled(st, n)| == TotalLength(st.packs[..n])
  {
    if n > 0 {
      AssembledLength(st, n - 1);
      assert st.packs[..n][..n - 1] == st.packs[..n - 1];
    }
  }

  /** Unrolling a pack is at most two straight copies. */
  lemma {:induction false} GatherSplits(ring: seq<byte>, offset: nat, length: nat)
    requires offset <= |ring| && length <= |ring|
    ensures var rem := |ring| - offset;
            Gather(ring, offset, length) ==
            if rem < length then ring[offset..] + ring[..length - rem] else ring[offset..offset + length]
  {
    var rem := |ring| - offset;
    var g := Gather(ring, offset, length);
    forall k | 0 <= k < length
      ensures g[k] == if k < rem then ring[offset + k] else ring[k - rem]
    {
      Wrapped(offset, k, |ring|);
    }
  }

  lemma {:induction false} Wrapped(offset: nat, k: nat, size: nat)
    requires offset <= size && k < size
    ensures (offset + k) % size == if offset + k < size then offset + k else offset + k - size
  {
  }

  /** `memcpy` of `src` to `dst + at`. */
  method Memcpy(dst: array<byte>, at: nat, src: seq<byte>)
    requires at + |src| <= dst.Length
    modifies dst
    ensures dst[..] == old(dst[..at]) + src + old(dst[at + |src|..])
  {
    forall k | 0 <= k < |src| {
      dst[at + k] := src[k];
    }
  }

  /** Two copies side by side are one copy of both sources. */
  lemma {:induction false} TwoCopies(before: seq<byte>, after: seq<byte>, at: nat, x: seq<byte>, y: seq<byte>)
    requires at + |x| + |y| <= |before|
    requires var between := before[..at] + x + before[at + |x|..];
             after == between[..at + |x|] + y + between[at + |x| + |y|..]
    ensures after == before[..at] + (x + y) + before[at + |x| + |y|..]
  {
  }

  /** Lines 217-225: one copy, or two when the bytes wrap around. */
  method CopyRing(base: seq<byte>, offset: nat, length: nat, dst: array<byte>, at: nat)
    requires offset <= |base| && length <= |base| && at + length <= dst.Length
    modifies dst
    ensures dst[..] == old(dst[..at]) + Gather(base, offset, length) + old(dst[at + length..])
  {
    GatherSplits(base, offset, length);
    hide Gather;
    var rem := |base| - offset;
    if rem < length {
      Memcpy(dst, at, base[offset..]);
      Memcpy(dst, at + rem, base[..length - rem]);
      TwoCopies(old(dst[..]), dst[..], at, base[offset..], base[..length - rem]);
    } else {
      Memcpy(dst, at, base[offset..offset + length]);
    }
  }

  /** `hal_stream_t`. */
  class Stream {
    var impl: Option<EncoderStream>

    constructor ()
      ensures impl == None
    {
      impl := None;
    }

    /** `hal_stream_get`; `got` is None when the allocation or the SDK call fails. */
    method Get(world: World, channel: nat, got: Option<EncoderStream>) returns (ret: int)
      modifies this, world
      ensures world.trace == if got.Some? then old(world.trace) + [Got(channel)] else old(world.trace)
      ensures ret == 0 <==> got.Some?
      ensures got.None? ==> ret < 0 && impl == old(impl)
      ensures got.Some? ==> impl == got
    {
      if got.None? {
        return -1;
      }
      world.GetStream(channel);
      impl := got;
      return 0;
    }

    /** `hal_stream_release`; `sdk` is what the SDK call answers. */
    method Release(world: World, channel: nat, sdk: int) returns (ret: int)
      modifies this, world
      ensures impl == None
      ensures world.trace ==
              old(world.trace) + [if old(impl).Some? then Released(channel) else ReleasedNothing(channel)]
      ensures ret == if old(impl).None? then -1 else sdk
    {
      world.ReleaseStream(channel, impl.Some?);
      if impl.None? {
        return -1;
      }
      impl := None;
      return sdk;
    }

    function PackCount(): nat
      reads this
    {
      if impl.None? then 0 else |impl.value.packs|
    }

    function PackLength(index: int): nat
      reads this
    {
      if impl.None? || index < 0 || index >= |impl.value.packs| then 0 else impl.value.packs[index].length
    }

    function PackTimestampUs(index: int): nat
      reads this
    {
      if impl.None? || index < 0 || index >= |impl.value.packs| then 0 else impl.value.packs[index].timestampUs
    }

    /** `hal_stream_copy_pack` to `dst + at`. */
    method CopyPack(index: int, dst: array?<byte>, at: nat) returns (copied: nat)
      requires impl.Some? ==> PacksFit(impl.value)
      requires dst != null ==> at + PackLength(index) <= dst.Length
      modifies dst
      ensures copied == if dst == null then 0 else PackLength(index)
      ensures dst != null && (impl.None? || !(0 <= index < |impl.value.packs|)) ==> dst[..] == old(dst[..])
      ensures dst != null && impl.Some? && 0 <= index < |impl.value.packs| ==>
                var pack := impl.value.packs[index];
                dst[..] == old(dst[..at]) + Gather(impl.value.ring, pack.offset, pack.length)
                           + old(dst[at + pack.length..])
    {
      if impl.None? || index < 0 || index >= |impl.value.packs| || dst == null {
        return 0;
      }
      var pack := impl.value.packs[index];
      CopyRing(impl.value.ring, pack.offset, pack.length, dst, at);
      return pack.length;
    }
  }
}
