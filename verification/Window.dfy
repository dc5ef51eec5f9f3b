/** Byte offsets into a list of strings that are read as if concatenated end to end. */
module Window {
  import opened Bytes

  datatype Option<+T> = None | Some(value: T)

  datatype Place = Place(index: nat, offset: nat)

  /** Offset, in the concatenation, of byte `at.offset` of string `at.index`. */
  function Position(sizes: seq<nat>, at: Place): nat
    requires at.index <= |sizes|
  {
    Sum(sizes[..at.index]) + at.offset
  }

  predicate Inside(sizes: seq<nat>, at: Place) {
    at.index < |sizes| && at.offset < sizes[at.index]
  }

  /** The string and the byte in it that a concatenation offset falls on. */
  function Locate(sizes: seq<nat>, pos: nat): (r: Option<Place>)
    ensures r.None? <==> pos >= Sum(sizes)
    ensures r.Some? ==> Inside(sizes, r.value)
  {
    if sizes == [] then None
    else if pos < sizes[0] then Some(Place(0, pos))
    else
      match Locate(sizes[1..], pos - sizes[0])
      case None => None
      case Some(p) => Some(Place(p.index + 1, p.offset))
  }

  /** `Locate` and `Position` are inverse to each other. */
  lemma {:induction false} LocateInverse(sizes: seq<nat>, pos: nat, at: Place)
    ensures Locate(sizes, pos) == Some(at) <==> Inside(sizes, at) && Position(sizes, at) == pos
  {
    if sizes != [] {
      if at.index > 0 {
        var at' := Place(at.index - 1, at.offset);
        if at.index <= |sizes| {
          assert sizes[..at.index][1..] == sizes[1..][..at.index - 1];
        }
        if pos >= sizes[0] {
          LocateInverse(sizes[1..], pos - sizes[0], at');
        } else if Inside(sizes, at) {
          assert Position(sizes, at) >= sizes[0];
        }
      } else {
        assert sizes[..0] == [];
      }
    }
  }

  /** A stretch of one string is the same stretch of the concatenation. */
  lemma FlattenSlice<T>(ss: seq<seq<T>>, at: Place, n: nat)
    requires at.index < |ss| && at.offset + n <= |ss[at.index]|
    ensures var p := Position(Sizes(ss), at);
            && p + n <= |Flatten(ss)|
            && Flatten(ss)[p..p + n] == ss[at.index][at.offset..at.offset + n]
  {
    var k := at.index;
    FlattenAppend(ss[..k], ss[k..]);
    assert ss == ss[..k] + ss[k..];
    assert Sizes(ss)[..k] == Sizes(ss[..k]);
    SumOfSizes(ss[..k]);
    assert Flatten(ss) == Flatten(ss[..k]) + (ss[k] + Flatten(ss[k..][1..]));
    MiddleSlice(Flatten(ss[..k]), ss[k], Flatten(ss[k..][1..]), at.offset, n);
  }

  lemma MiddleSlice<T>(a: seq<T>, b: seq<T>, c: seq<T>, o: nat, n: nat)
    requires o + n <= |b|
    ensures (a + (b + c))[|a| + o..|a| + o + n] == b[o..o + n]
  {
  }

  /** The byte at an offset of the concatenation is the byte that the offset falls on. */
  lemma LocateByte<T>(ss: seq<seq<T>>, pos: nat)
    ensures Locate(Sizes(ss), pos).Some? <==> pos < |Flatten(ss)|
    ensures Locate(Sizes(ss), pos).Some? ==>
              var at := Locate(Sizes(ss), pos).value;
              at.index < |ss| && at.offset < |ss[at.index]| && Flatten(ss)[pos] == ss[at.index][at.offset]
  {
    SumOfSizes(ss);
    if Locate(Sizes(ss), pos).Some? {
      var at := Locate(Sizes(ss), pos).value;
      LocateInverse(Sizes(ss), pos, at);
      FlattenSlice(ss, at, 1);
      assert Flatten(ss)[pos] == Flatten(ss)[pos..pos + 1][0];
    }
  }
}
