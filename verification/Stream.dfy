/** The input stream of the parser: a flat buffer, a position and a limit. */
module Stream {
  import opened Wire

  /** A varint whose low bits were read before the rest. */
  ghost function Shift(r: Read<nat>, low: nat, scale: nat): Read<nat> {
    match r case Bad => Bad case Good(v, rest) => Good(low + scale * v, rest)
  }

  lemma ShiftStep(s: Bytes, k: nat, low: nat, scale: nat)
    requires k > 0 && s != []
    ensures Shift(ReadVarint(s, k), low, scale) ==
            if s[0] < 128 then Good(low + scale * s[0], s[1..])
            else Shift(ReadVarint(s[1..], k - 1), low + scale * (s[0] - 128), scale * 128)
  {
    if s[0] >= 128 && ReadVarint(s[1..], k - 1).Good? {
      var b, v := s[0] - 128, ReadVarint(s[1..], k - 1).value;
      assert scale * (b + 128 * v) == scale * b + scale * 128 * v;
    }
  }

  lemma VarintExhausted(s: Bytes, k: nat)
    ensures k == 0 || s == [] ==> ReadVarint(s, k).Bad?
  {
  }

  class CodedInputStream {
    const data: Bytes
    var pos: nat
    var limit: nat
    /** Set when a tag is wanted at the limit: the only place a message may end. */
    var legitimateEnd: bool

    ghost predicate Valid() reads this { pos <= limit <= |data| }

    /** What can still be read.  Nothing past the limit is ever part of it. */
    ghost function Left(): Bytes
      reads this
      requires Valid()
    {
      data[pos..limit]
    }

    constructor (data: Bytes)
      ensures Valid() && Left() == data && this.data == data && limit == |data|
    {
      this.data := data;
      pos, limit, legitimateEnd := 0, |data|, false;
    }

    method ReadVarint64() returns (ok: bool, v: nat)
      requires Valid()
      modifies this`pos
      ensures Valid() && pos >= old(pos)
      ensures ok <==> Wire.ReadVarint64(old(Left())).Good?
      ensures ok ==> Wire.ReadVarint64(old(Left())) == Good(v, Left())
    {
      hide ReadVarint;
      ghost var s := Left();
      var i, scale: nat := 0, 1;
      v := 0;
      while i < MAX_VARINT_BYTES && pos < limit
        invariant Valid() && pos >= old(pos) && i <= MAX_VARINT_BYTES
        invariant ReadVarint(s, MAX_VARINT_BYTES) == Shift(ReadVarint(Left(), MAX_VARINT_BYTES - i), v, scale)
      {
        ShiftStep(Left(), MAX_VARINT_BYTES - i, v, scale);
        var b := data[pos];
        assert Left()[0] == b && Left()[1..] == data[pos + 1..limit];
        pos := pos + 1;
        v := v + scale * (b % 128);
        if b < 128 {
          v := v % TWO_64;
          return true, v;
        }
        scale, i := scale * 128, i + 1;
      }
      VarintExhausted(Left(), MAX_VARINT_BYTES - i);
      ok := false;
    }

    method ReadTag() returns (tag: nat)
      requires Valid()
      modifies this`pos, this`legitimateEnd
      ensures Valid() && pos >= old(pos)
      ensures legitimateEnd <==> old(Left()) == []
      ensures tag == 0 <==> Wire.ReadTag(old(Left())).Bad?
      ensures tag != 0 ==> Wire.ReadTag(old(Left())) == Good(tag, Left()) && pos > old(pos)
    {
      legitimateEnd := pos == limit;
      var ok, v := ReadVarint64();
      tag := if ok then v % TWO_32 else 0;
    }

    /** A failed read leaves the position anywhere before the limit. */
    method ReadBytes() returns (ok: bool, b: Bytes)
      requires Valid()
      modifies this`pos
      ensures Valid() && pos >= old(pos)
      ensures ok <==> ReadDelimited(old(Left())).Good?
      ensures ok ==> ReadDelimited(old(Left())) == Good(b, Left())
    {
      b := [];
      var n;
      ok, n := ReadVarint64();
      if !ok || n > INT_MAX || n > limit - pos { return false, []; }
      assert Left()[..n] == data[pos..pos + n] && Left()[n..] == data[pos + n..limit];
      b := data[pos..pos + n];
      pos := pos + n;
    }

    method Skip(n: nat) returns (ok: bool)
      requires Valid()
      modifies this`pos
      ensures Valid() && pos >= old(pos)
      ensures ok <==> |old(Left())| >= n
      ensures ok ==> Left() == old(Left())[n..]
    {
      ok := n <= limit - pos;
      if ok { pos := pos + n; }
    }

    method SkipField(tag: nat) returns (ok: bool)
      requires Valid()
      modifies this`pos, this`legitimateEnd
      ensures Valid() && pos >= old(pos)
      ensures ok <==> ReadPayload(tag, old(Left())).Good?
      ensures ok ==> ReadPayload(tag, old(Left())).rest == Left()
      decreases limit - pos, 1
    {
      if tag / 8 == 0 { return false; }
      match tag % 8 {
        case 0 => var v; ok, v := ReadVarint64();
        case 1 => ok := Skip(8);
        case 2 => var b; ok, b := ReadBytes();
        case 3 => ok := SkipGroup(tag / 8);
        case 5 => ok := Skip(4);
        case _ => ok := false;
      }
    }

    method SkipGroup(num: nat) returns (ok: bool)
      requires Valid()
      modifies this`pos, this`legitimateEnd
      ensures Valid() && pos >= old(pos)
      ensures ok <==> Wire.SkipGroup(num, old(Left())).Good?
      ensures ok ==> Wire.SkipGroup(num, old(Left())).rest == Left()
      decreases limit - pos, 0
    {
      ghost var s := Left();
      while true
        invariant Valid() && pos >= old(pos)
        invariant Wire.SkipGroup(num, s) == Wire.SkipGroup(num, Left())
        decreases limit - pos
      {
        var tag := ReadTag();
        if tag == 0 { return false; }
        if tag % 8 == 4 { return tag / 8 == num; }
        var skipped := SkipField(tag);
        if !skipped { return false; }
      }
    }

    /** Narrows the stream to its next `n` bytes; returns the limit to restore. */
    method PushLimit(n: nat) returns (outer: nat)
      requires Valid() && n <= limit - pos
      modifies this`limit
      ensures Valid() && outer == old(limit) && limit == pos + n && Left() == old(Left())[..n]
    {
      outer := limit;
      limit := pos + n;
    }

    method PopLimit(outer: nat)
      requires Valid() && limit <= outer <= |data|
      modifies this`limit, this`legitimateEnd
      ensures Valid() && limit == outer && Left() == old(Left()) + data[old(limit)..outer]
    {
      limit := outer;
      legitimateEnd := false;
    }
  }
}
