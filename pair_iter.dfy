/**
 * The two-cursor "tee" of robin_newton.py: `pair_iterator`, `pair_iter` and `pair`.
 *
 * Two cursors share one forward-only source, one FIFO buffer and one flag. The
 * source is modelled as the sequence it will produce plus a read position; a
 * pull past its end is the source's end of iteration (`None`).
 */
module PairIter {

  /** `None` is end of iteration (Python's StopIteration). */
  datatype Option<T> = None | Some(value: T)

  function Min(a: int, b: int): int { if a <= b then a else b }

  function Max(a: int, b: int): int { if a <= b then b else a }

  /** The adjacent pairs (x[0], x[1]), ..., (x[m-2], x[m-1]) of a sequence. */
  function AdjacentPairs<T>(x: seq<T>): (r: seq<(T, T)>)
    ensures |r| == if |x| == 0 then 0 else |x| - 1
    ensures forall k {:trigger r[k]} :: 0 <= k < |r| ==> r[k] == (x[k], x[k + 1])
  {
    if |x| < 2 then [] else [(x[0], x[1])] + AdjacentPairs(x[1..])
  }

  /** How many of the first k calls of a schedule go to the cursor `my`. */
  function Count(schedule: seq<bool>, k: nat, my: bool): nat
    requires k <= |schedule|
  {
    if k == 0 then 0 else Count(schedule, k - 1, my) + (if schedule[k - 1] == my then 1 else 0)
  }

  /** Each call of a schedule goes to exactly one of the two cursors. */
  lemma {:induction false} CountSplit(schedule: seq<bool>, k: nat)
    requires k <= |schedule|
    ensures Count(schedule, k, true) + Count(schedule, k, false) == k
  {
    if k > 0 {
      CountSplit(schedule, k - 1);
    }
  }

  /**
   * The state shared by the two cursors that `pair_iter` returns. A cursor is
   * named by its `my` flag: `true` for the first, `false` for the second.
   */
  class Tee<T> {
    /** Everything the shared source produces, in order. */
    const src: seq<T>
    /** How many elements have been pulled from the shared source. */
    var pos: nat
    /** The shared list `buff`. */
    var buff: seq<T>
    /** The shared cell `flag[0]`; `None` until the first pull. */
    var flag: Option<bool>
    /** How many elements each cursor has returned (kept only for the proof). */
    ghost var seenTrue: nat
    ghost var seenFalse: nat

    ghost function Seen(my: bool): nat
      reads this
    {
      if my then seenTrue else seenFalse
    }

    /**
     * The leading cursor has returned everything pulled so far; the buffer
     * holds what it has returned and the trailing cursor has not, in source
     * order; and while the buffer is not empty the flag names the trailing cursor.
     */
    ghost predicate Valid()
      reads this
    {
      pos <= |src| &&
      pos == Max(seenTrue, seenFalse) &&
      buff == src[Min(seenTrue, seenFalse)..pos] &&
      (buff != [] ==> flag == Some(seenTrue < seenFalse))
    }

    /** `pair_iter`: an empty buffer and an unset flag over a fresh source. */
    constructor (source: seq<T>)
      ensures Valid()
      ensures src == source && pos == 0 && buff == [] && flag == None
      ensures Seen(true) == 0 && Seen(false) == 0
    {
      src := source;
      pos := 0;
      buff := [];
      flag := None;
      seenTrue, seenFalse := 0, 0;
    }

    /** `next(self._i)`: one element from the shared source, if any is left. */
    method Pull() returns (r: Option<T>)
      requires pos <= |src|
      modifies this`pos
      ensures pos <= |src|
      ensures r == if old(pos) < |src| then Some(src[old(pos)]) else None
      ensures pos == old(pos) + (if r.Some? then 1 else 0)
    {
      if pos < |src| {
        r := Some(src[pos]);
        pos := pos + 1;
      } else {
        r := None;
      }
    }

    /**
     * `pair_iterator.__next__` on the cursor `my`: whatever the interleaving,
     * the cursor returns the next source element it has not returned yet, or
     * ends when it has returned them all. The shared source is pulled only by
     * a cursor that is not behind, so each element is pulled exactly once. An
     * exhausted pull changes nothing.
     */
    method Next(my: bool) returns (r: Option<T>)
      requires Valid()
      modifies this
      ensures Valid()
      ensures r == if old(Seen(my)) < |src| then Some(src[old(Seen(my))]) else None
      ensures Seen(my) == old(Seen(my)) + (if r.Some? then 1 else 0)
      ensures Seen(!my) == old(Seen(!my))
      ensures pos == old(pos) + (if r.Some? && old(Seen(my)) == old(pos) then 1 else 0)
      ensures flag == if old(buff) == [] && r.Some? then Some(!my) else old(flag)
      ensures r.None? ==> buff == old(buff)
    {
      ghost var lo := Min(seenTrue, seenFalse);
      if |buff| == 0 {
        assert Seen(my) == pos && Seen(!my) == pos;
        r := Pull();
        if r.Some? {
          SliceStep(src, old(pos), old(pos));
          buff := buff + [r.value];
          flag := Some(!my);
          Advance(my);
        }
      } else if flag == Some(my) {
        assert Seen(my) == lo < pos && Seen(!my) == pos;
        SliceTail(src, lo, pos);
        r := Some(buff[0]);
        buff := buff[1..];
        Advance(my);
      } else {
        assert Seen(my) == pos && Seen(!my) == lo < pos;
        r := Pull();
        if r.Some? {
          SliceStep(src, lo, old(pos));
          buff := buff + [r.value];
          Advance(my);
        }
      }
    }

    /** Counts one more element returned by the cursor `my`. */
    ghost method Advance(my: bool)
      modifies this`seenTrue, this`seenFalse
      ensures Seen(my) == old(Seen(my)) + 1 && Seen(!my) == old(Seen(!my))
    {
      if my {
        seenTrue := seenTrue + 1;
      } else {
        seenFalse := seenFalse + 1;
      }
    }
  }

  /**
   * The leader's count, capped at m, never exceeds the number of calls: a
   * shared source pulled only by the leader is pulled at most once per call.
   */
  lemma PulledBound(schedule: seq<bool>, m: nat)
    ensures Max(Min(Count(schedule, |schedule|, true), m), Min(Count(schedule, |schedule|, false), m)) <= |schedule|
  {
    CountSplit(schedule, |schedule|);
  }

  /** A counter kept at Min(c, m) that advances exactly while below m stays at Min(c + 1, m). */
  lemma MinStep(c: nat, m: nat, seen: nat, advanced: bool)
    requires seen == Min(c, m) && (advanced <==> seen < m)
    ensures seen + (if advanced then 1 else 0) == Min(c + 1, m)
  {
  }

  lemma SliceStep<T>(s: seq<T>, lo: nat, hi: nat)
    requires lo <= hi < |s|
    ensures s[lo..hi] + [s[hi]] == s[lo..hi + 1]
  {
  }

  lemma SliceTail<T>(s: seq<T>, lo: nat, hi: nat)
    requires lo < hi <= |s|
    ensures s[lo..hi][0] == s[lo] && s[lo..hi][1..] == s[lo + 1..hi]
  {
  }

  /**
   * Drives the two cursors of one `pair_iter` by an arbitrary schedule of
   * `__next__` calls and collects what each returns: each cursor sees a prefix
   * of the source in source order, the source is pulled once per element the
   * leading cursor has returned (so at most once per call), and the buffer
   * ends up holding exactly the elements the leading cursor has returned and
   * the trailing one has not.
   */
  method Interleave<T>(source: seq<T>, schedule: seq<bool>)
      returns (outTrue: seq<T>, outFalse: seq<T>, pulled: nat, buffered: seq<T>)
    ensures outTrue == source[..Min(Count(schedule, |schedule|, true), |source|)]
    ensures outFalse == source[..Min(Count(schedule, |schedule|, false), |source|)]
    ensures pulled == Max(|outTrue|, |outFalse|)
    ensures buffered == source[Min(|outTrue|, |outFalse|)..pulled]
    ensures pulled <= |schedule|
  {
    var t := new Tee(source);
    outTrue, outFalse := [], [];
    for k := 0 to |schedule|
      invariant t.Valid() && t.src == source
      invariant t.Seen(true) == Min(Count(schedule, k, true), |source|)
      invariant t.Seen(false) == Min(Count(schedule, k, false), |source|)
      invariant outTrue == source[..t.Seen(true)]
      invariant outFalse == source[..t.Seen(false)]
    {
      var my := schedule[k];
      ghost var before := t.Seen(my);
      var r := t.Next(my);
      MinStep(Count(schedule, k, my), |source|, before, r.Some?);
      if r.Some? {
        assert source[..before] + [source[before]] == source[..before + 1];
        if my {
          outTrue := outTrue + [r.value];
        } else {
          outFalse := outFalse + [r.value];
        }
      }
    }
    PulledBound(schedule, |source|);
    pulled, buffered := t.pos, t.buff;
  }

  /**
   * `pair(x)`: advances the second cursor once, then zips the two cursors. A
   * source with no element fails at that first advance; otherwise the result
   * is the m - 1 adjacent pairs in order, and the source is pulled m times.
   */
  method Pair<T>(x: seq<T>) returns (r: Option<seq<(T, T)>>, pulled: nat)
    ensures r == if |x| == 0 then None else Some(AdjacentPairs(x))
    ensures pulled == |x|
  {
    var t := new Tee(x);
    var first := t.Next(false);
    if first.None? {
      return None, t.pos;
    }
    var acc: seq<(T, T)> := [];
    while true
      invariant t.Valid() && t.src == x
      invariant t.Seen(false) == t.Seen(true) + 1 <= |x|
      invariant |acc| == t.Seen(true)
      invariant forall k :: 0 <= k < |acc| ==> acc[k] == (x[k], x[k + 1])
      decreases |x| - t.Seen(true)
    {
      var a := t.Next(true);
      if a.None? {
        break;
      }
      var b := t.Next(false);
      if b.None? {
        break;
      }
      acc := acc + [(a.value, b.value)];
    }
    assert |acc| == |AdjacentPairs(x)|;
    forall k | 0 <= k < |acc| ensures acc[k] == AdjacentPairs(x)[k] {
      assert acc[k] == (x[k], x[k + 1]);
      assert AdjacentPairs(x)[k] == (x[k], x[k + 1]);
    }
    assert acc == AdjacentPairs(x);
    r, pulled := Some(acc), t.pos;
  }
}
