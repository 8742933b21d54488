/** Filling a buffer from the front, as a run of memcpy calls through a moving offset does. */
module Buffers {

  /** `done` has been written. */
  ghost predicate Holds<T>(buff: array<T>, done: seq<T>)
    reads buff
  {
    |done| <= buff.Length && buff[..|done|] == done
  }

  /** memcpy(buff + at, src, |src|); at += |src| */
  method Put<T>(buff: array<T>, at: nat, src: seq<T>, ghost done: seq<T>) returns (next: nat)
    requires Holds(buff, done) && at == |done| && at + |src| <= buff.Length
    modifies buff
    ensures Holds(buff, done + src) && next == |done + src|
    ensures buff[next..] == old(buff[at + |src|..])
  {
    forall i | 0 <= i < |src| {
      buff[at + i] := src[i];
    }
    next := at + |src|;
  }

  lemma HoldsNothing<T>(buff: array<T>)
    ensures Holds(buff, [])
  {}

  lemma HoldsAll<T>(buff: array<T>, done: seq<T>)
    requires Holds(buff, done) && |done| == buff.Length
    ensures buff[..] == done
  {}
}
