/**
 * A connected TCP stream seen from the server's side, as a byte sink.
 *
 * The peer's disconnection is modelled by `room`: the number of bytes the
 * connection still carries before it breaks. `write_all` puts as much of its
 * data on the wire as fits and fails when the data did not all fit, so a failed
 * write has emitted a prefix of its data.
 */
module Streams {
  import opened Utf8

  /** The first `n` elements of `s`, or all of `s` when it is shorter. */
  function Truncate<T>(s: seq<T>, n: nat): (r: seq<T>)
    ensures |r| == if |s| <= n then |s| else n
    ensures r == s[..|r|]
  {
    if |s| <= n then s else s[..n]
  }

  /** The pieces of `pieces`, one after another. */
  function Concat<T>(pieces: seq<seq<T>>): (r: seq<T>)
    decreases |pieces|
  {
    if |pieces| == 0 then [] else pieces[0] + Concat(pieces[1..])
  }

  class Socket {
    /** Every byte written so far, in order. */
    var sent: seq<Byte>
    /** How many more bytes the connection carries before it breaks. */
    var room: nat

    constructor (room: nat)
      ensures sent == [] && this.room == room
    {
      sent := [];
      this.room := room;
    }

    /** `Write::write_all`. */
    method WriteAll(data: seq<Byte>) returns (ok: bool)
      modifies this
      ensures ok <==> |data| <= old(room)
      ensures sent == old(sent) + Truncate(data, old(room))
      ensures room == old(room) - |Truncate(data, old(room))|
    {
      ok := |data| <= room;
      var n := if ok then |data| else room;
      sent := sent + data[..n];
      room := room - n;
    }
  }

  lemma AppendAssoc<T>(a: seq<T>, b: seq<T>, c: seq<T>)
    ensures a + (b + c) == (a + b) + c
  {
  }

  /** The groupings of three consecutive writes. */
  lemma Regroup<T>(all: seq<T>, a: seq<T>, b: seq<T>, c: seq<T>)
    requires all == (a + b) + c
    ensures all == [] + (a + (b + c)) && all == a + (b + c) && all == (a + b) + (c + [])
  {
  }

  /** Writing `a` and then, if that succeeded, `b`, puts a prefix of `a + b` on the wire. */
  lemma {:induction false} TruncateAppend<T>(a: seq<T>, b: seq<T>, n: nat)
    ensures |a| <= n ==> Truncate(a + b, n) == a + Truncate(b, n - |a|)
    ensures |a| > n ==> Truncate(a + b, n) == Truncate(a, n)
  {
    if |a| <= n {
      assert (a + b)[..|a|] == a;
    } else {
      assert (a + b)[..n] == a[..n];
    }
  }
}
