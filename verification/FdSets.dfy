/** The select(2) descriptor set: an array of words of any width, used as a set of integers. */
module FdSets {
  import opened Bits

  class FdSet {
    const width: nat          // bits per word
    const bits: array<nat>    // bit patterns of the words

    ghost predicate Valid()
      reads this, bits
    {
      width > 0 && forall i | 0 <= i < bits.Length :: bits[i] < Pow2(width)
    }

    /** The descriptors in the set. */
    ghost function Members(): set<int>
      reads this, bits
      requires Valid()
    {
      set fd | 0 <= fd < bits.Length * width && Bit(bits[fd / width], fd % width)
    }

    constructor (words: nat, width: nat)
      requires width > 0
      ensures Valid() && fresh(bits) && this.width == width && bits.Length == words && Members() == {}
    {
      this.width := width;
      this.bits := new nat[words](_ => 0);
      new;
      NoBits(this);
    }

    method Zero()
      requires Valid()
      modifies bits
      ensures Valid() && Members() == {}
    {
      for i := 0 to bits.Length
        invariant forall j | 0 <= j < i :: bits[j] == 0
      {
        bits[i] := 0;
      }
      NoBits(this);
    }

    /** Adds a descriptor in range; any other is ignored. */
    method Set(fd: int)
      requires Valid()
      modifies bits
      ensures Valid()
      ensures Members() == old(Members()) + if 0 <= fd < bits.Length * width then {fd} else {}
    {
      hide Or, Bit, Pow2;
      var maxFd := bits.Length * width;
      if fd < 0 || fd >= maxFd { return; }
      InRange(fd, width, bits.Length);
      var idx := fd / width;
      var offset := fd % width;
      ghost var was := bits[..];
      Pow2Strict(offset, width);
      OrBound(bits[idx], Pow2(offset), width);
      bits[idx] := Or(bits[idx], Pow2(offset));
      OneBitSet(was, bits[..], fd, width);
      assert forall e | 0 <= e < maxFd :: e in Members() <==> e == fd || e in old(Members()) by {
        forall e | 0 <= e < maxFd ensures e in Members() <==> e == fd || e in old(Members()) {
          InRange(e, width, bits.Length);
          assert HasBit(was, e, width) == old(Bit(bits[e / width], e % width));
          assert HasBit(bits[..], e, width) == Bit(bits[e / width], e % width);
        }
      }
    }

    /** Membership; out of range means absent. */
    method IsSet(fd: int) returns (r: bool)
      requires Valid()
      ensures r <==> fd in Members()
    {
      var maxFd := bits.Length * width;
      if fd < 0 || fd >= maxFd { return false; }
      InRange(fd, width, bits.Length);
      AndPow2(bits[fd / width], fd % width);
      return And(bits[fd / width], Pow2(fd % width)) != 0;
    }
  }

  /** Is bit fd set in the array of words? */
  ghost predicate HasBit(words: seq<nat>, fd: int, width: nat)
    requires width > 0 && 0 <= fd < |words| * width
  {
    InRange(fd, width, |words|);
    Bit(words[fd / width], fd % width)
  }

  /** OR-ing one bit into one word adds that descriptor and no other. */
  lemma OneBitSet(was: seq<nat>, now: seq<nat>, fd: int, width: nat)
    requires width > 0 && 0 <= fd < |was| * width && 0 <= fd / width < |was|
    requires now == was[fd / width := Or(was[fd / width], Pow2(fd % width))]
    ensures forall e | 0 <= e < |was| * width :: HasBit(now, e, width) <==> e == fd || HasBit(was, e, width)
  {
    hide Or, Bit, Pow2;
    forall e | 0 <= e < |was| * width ensures HasBit(now, e, width) <==> e == fd || HasBit(was, e, width) {
      InRange(e, width, |was|);
      OrBit(was[fd / width], Pow2(fd % width), e % width);
      Pow2Bit(fd % width, e % width);
      SamePlace(e, fd, width);
    }
  }

  lemma NoBits(s: FdSet)
    requires s.width > 0 && forall i | 0 <= i < s.bits.Length :: s.bits[i] == 0
    ensures s.Valid() && s.Members() == {}
  {
    forall fd | 0 <= fd < s.bits.Length * s.width ensures !Bit(s.bits[fd / s.width], fd % s.width) {
      InRange(fd, s.width, s.bits.Length);
      ZeroBits(fd % s.width);
    }
  }

  lemma InRange(fd: int, width: nat, words: nat)
    requires width > 0 && 0 <= fd < words * width
    ensures 0 <= fd / width < words && 0 <= fd % width < width
  {
    assert fd == (fd / width) * width + fd % width;
    AtLeast(fd / width, words, width);
  }

  lemma AtLeast(q: int, n: int, w: nat)
    ensures q >= n ==> q * w >= n * w
  {
    if q >= n { assert (q - n) * w >= 0; }
  }

  lemma SamePlace(e: int, fd: int, width: nat)
    requires width > 0
    ensures e / width == fd / width && e % width == fd % width ==> e == fd
  {
    assert e == (e / width) * width + e % width && fd == (fd / width) * width + fd % width;
  }

  // ----- Any sequence of calls -----

  datatype Call = ZeroCall | SetCall(fd: int)

  /** The integers a history of calls leaves in the set. */
  function After(calls: seq<Call>, max: int): set<int> {
    if calls == [] then {} else
    var last := calls[|calls| - 1];
    match last
    case ZeroCall => {}
    case SetCall(fd) => After(calls[..|calls| - 1], max) + if 0 <= fd < max then {fd} else {}
  }

  /** Runs the calls and asks about a descriptor. */
  method Replay(s: FdSet, calls: seq<Call>, fd: int) returns (r: bool)
    requires s.Valid() && s.Members() == {}
    modifies s.bits
    ensures s.Valid() && s.Members() == After(calls, s.bits.Length * s.width)
    ensures r <==> fd in After(calls, s.bits.Length * s.width)
  {
    var i := 0;
    while i < |calls|
      invariant 0 <= i <= |calls| && s.Valid()
      invariant s.Members() == After(calls[..i], s.bits.Length * s.width)
    {
      assert calls[..i + 1][..i] == calls[..i];
      match calls[i] {
        case ZeroCall => s.Zero();
        case SetCall(d) => s.Set(d);
      }
      i := i + 1;
    }
    assert calls[..i] == calls;
    r := s.IsSet(fd);
  }

  /** A descriptor is in the set exactly when it is in range and was set after the last zero. */
  lemma {:induction false} AfterMeaning(calls: seq<Call>, max: int, fd: int)
    ensures fd in After(calls, max) <==>
            0 <= fd < max &&
            exists i :: 0 <= i < |calls| && calls[i] == SetCall(fd)
              && forall j | i < j < |calls| :: calls[j] != ZeroCall
  {
    if calls != [] {
      var n := |calls| - 1;
      var init := calls[..n];
      AfterMeaning(init, max, fd);
      assert forall i | 0 <= i < n :: init[i] == calls[i];
      if calls[n].SetCall? {
        if calls[n].fd != fd {
          if i :| 0 <= i < |calls| && calls[i] == SetCall(fd) && forall j | i < j < |calls| :: calls[j] != ZeroCall {
            assert init[i] == SetCall(fd);
          }
          if i :| 0 <= i < n && init[i] == SetCall(fd) && forall j | i < j < n :: init[j] != ZeroCall {
            assert calls[i] == SetCall(fd);
          }
        } else {
          assert calls[n] == SetCall(fd);
        }
      } else {
        forall i | 0 <= i < |calls| && calls[i] == SetCall(fd) ensures calls[n] == ZeroCall && i < n { }
      }
    }
  }
}
