/**
 * The parameter descriptor protocol shared by both directions of
 * authentication: an ordered list of (size, source) pairs, ended by the
 * first entry whose size is zero. For a response the source is an offset
 * into the response buffer; for an outgoing command it is a pointer, which
 * may be null. The C interface passes the list as variadic arguments; here
 * it is an explicit sequence, and a list without a zero-size entry simply
 * ends where the sequence ends.
 */
module ParamDescriptors {
  import opened TpmTypes

  datatype Desc<+Src> = Desc(size: uint32, src: Src)

  /** A response range: `size` bytes starting at offset `src`. */
  type ResponseDesc = Desc<uint32>

  /** A command range: `size` bytes at the pointer `src`, which may be null. */
  type DataDesc = Desc<Option<seq<uint8>>>

  /**
   * The number of descriptors the loop consumes before it meets the
   * terminator: every earlier size is nonzero, and the entry it stops at,
   * if any, has size zero.
   */
  function Terminator<S>(ds: seq<Desc<S>>): (n: nat)
    ensures n <= |ds|
    ensures forall i :: 0 <= i < n ==> ds[i].size != 0
    ensures n < |ds| ==> ds[n].size == 0
  {
    if ds == [] || ds[0].size == 0 then 0
    else
      var n := 1 + Terminator(ds[1..]);
      assert forall i :: 1 <= i < n ==> ds[i] == ds[1..][i - 1];
      n
  }

  /** The descriptors before the terminator. */
  function Active<S>(ds: seq<Desc<S>>): seq<Desc<S>> {
    ds[..Terminator(ds)]
  }

  /** Every response range lies inside the buffer. */
  predicate RangesInBounds(response: seq<uint8>, ps: seq<ResponseDesc>) {
    forall i :: 0 <= i < |ps| ==> ps[i].src as int + ps[i].size as int <= |response|
  }

  /** The bytes one response descriptor selects. */
  function Range(response: seq<uint8>, p: ResponseDesc): seq<uint8>
    requires p.src as int + p.size as int <= |response|
  {
    response[p.src..p.src as int + p.size as int]
  }

  /** The selected response ranges, concatenated in list order. */
  function ResponseRanges(response: seq<uint8>, ps: seq<ResponseDesc>): seq<uint8>
    requires RangesInBounds(response, ps)
  {
    if ps == [] then []
    else ResponseRanges(response, ps[..|ps| - 1]) + Range(response, ps[|ps| - 1])
  }

  /** Byte `k` of the response lies in one of the ranges. */
  predicate Covers(ps: seq<ResponseDesc>, k: int) {
    exists i :: 0 <= i < |ps| && ps[i].src as int <= k < ps[i].src as int + ps[i].size as int
  }

  /** The selected bytes depend only on the response bytes the ranges cover. */
  lemma {:induction false} ResponseRangesFrame(r1: seq<uint8>, r2: seq<uint8>, ps: seq<ResponseDesc>)
    requires RangesInBounds(r1, ps) && RangesInBounds(r2, ps)
    requires forall k :: 0 <= k < |r1| && 0 <= k < |r2| && Covers(ps, k) ==> r1[k] == r2[k]
    ensures ResponseRanges(r1, ps) == ResponseRanges(r2, ps)
  {
    if ps != [] {
      var init, last := ps[..|ps| - 1], ps[|ps| - 1];
      forall k | 0 <= k < |r1| && 0 <= k < |r2| && Covers(init, k)
        ensures r1[k] == r2[k]
      {
        var i :| 0 <= i < |init| && init[i].src as int <= k < init[i].src as int + init[i].size as int;
        assert ps[i] == init[i];
      }
      ResponseRangesFrame(r1, r2, init);
      forall j | 0 <= j < last.size as int
        ensures Range(r1, last)[j] == Range(r2, last)[j]
      {
        assert Covers(ps, last.src as int + j);
      }
    }
  }

  /** Concatenation of lists concatenates the selected bytes, in order. */
  lemma {:induction false} ResponseRangesAppend(response: seq<uint8>, ps: seq<ResponseDesc>, qs: seq<ResponseDesc>)
    requires RangesInBounds(response, ps) && RangesInBounds(response, qs)
    ensures RangesInBounds(response, ps + qs)
    ensures ResponseRanges(response, ps + qs) == ResponseRanges(response, ps) + ResponseRanges(response, qs)
  {
    assert RangesInBounds(response, ps + qs) by {
      forall i | 0 <= i < |ps + qs|
        ensures (ps + qs)[i].src as int + (ps + qs)[i].size as int <= |response|
      {
        if i >= |ps| { assert (ps + qs)[i] == qs[i - |ps|]; }
      }
    }
    if qs == [] {
      assert ps + qs == ps;
    } else {
      var init := qs[..|qs| - 1];
      assert (ps + qs)[..|ps + qs| - 1] == ps + init;
      ResponseRangesAppend(response, ps, init);
    }
  }

  /** A command source that is present and holds at least `size` bytes. */
  predicate Holds(d: DataDesc) {
    d.src.Some? && d.size as int <= |d.src.value|
  }

  /**
   * Every source the loop reads holds `size` bytes: those before the
   * terminator that are not null and come before the first null one.
   */
  predicate DataReadable(ds: seq<DataDesc>) {
    forall i :: 0 <= i < Terminator(ds) && ds[i].src.Some? && (forall j :: 0 <= j < i ==> ds[j].src.Some?) ==>
      ds[i].size as int <= |ds[i].src.value|
  }

  /** Some descriptor before the terminator has a null source. */
  predicate HasNullData(ds: seq<DataDesc>) {
    exists i :: 0 <= i < Terminator(ds) && ds[i].src.None?
  }

  /** The bytes of command ranges, concatenated in list order. */
  function DataRanges(ds: seq<DataDesc>): seq<uint8>
    requires forall i :: 0 <= i < |ds| ==> Holds(ds[i])
  {
    if ds == [] then []
    else
      var last := ds[|ds| - 1];
      assert Holds(last);
      DataRanges(ds[..|ds| - 1]) + last.src.value[..last.size]
  }

  /** The bytes a command descriptor list selects, when none of its sources is null. */
  function CommandData(ds: seq<DataDesc>): seq<uint8>
    requires DataReadable(ds) && !HasNullData(ds)
  {
    var act := Active(ds);
    assert forall i :: 0 <= i < |act| ==> act[i] == ds[i] && ds[i].src.Some?;
    DataRanges(act)
  }
}
