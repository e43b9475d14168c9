/** The evbuffer of cs/my_event/buffer.c: a byte window that slides through one allocation, is moved back
    to its start when that makes enough room, and otherwise grows by doubling. */
module EvBuffer {
  import opened Basics

  const EVBUFFER_MAX_READ := 4096

  // 0, or 256 doubled some number of times
  predicate DoubledFrom256(n: nat)
  {
    n == 0 || n == 256 || (n > 256 && n % 2 == 0 && DoubledFrom256(n / 2))
  }

  function Pow2(k: nat): nat {
    if k == 0 then 1 else 2 * Pow2(k - 1)
  }

  lemma {:induction false} PowerIsDoubled(k: nat)
    ensures Pow2(k) > 0 && DoubledFrom256(256 * Pow2(k))
  {
    if k > 0 {
      PowerIsDoubled(k - 1);
    }
  }

  lemma {:induction false} DoubledIsPower(n: nat)
    ensures DoubledFrom256(n) <==> n == 0 || exists k: nat :: n == 256 * Pow2(k)
  {
    if n > 256 && DoubledFrom256(n) {
      DoubledIsPower(n / 2);
      var k: nat :| n / 2 == 256 * Pow2(k);
      assert n == 256 * Pow2(k + 1);
    } else if n == 256 {
      assert n == 256 * Pow2(0);
    }
    if k: nat :| n == 256 * Pow2(k) {
      PowerIsDoubled(k);
    }
  }

  class EvBuffer {
    var origBuffer: array<Byte>
    var buffer: nat       // the offset of the pointer `buffer` from `orig_buffer`
    var misalign: nat
    var totallen: nat
    var off: nat
    var hasCallback: bool

    ghost var stream: seq<Byte>             // every byte ever appended
    ghost var consumed: nat                 // how many of them have been drained
    ghost var calls: seq<(nat, nat)>        // the (old, new) lengths reported to the callback

    ghost predicate Valid()
      reads this, origBuffer
    {
      && buffer == misalign && misalign + off <= totallen == origBuffer.Length && DoubledFrom256(totallen)
      && consumed + off == |stream| && Visible() == stream[consumed..]
    }

    // The bytes a reader sees.
    ghost function Visible(): (v: seq<Byte>)
      requires buffer + off <= origBuffer.Length
      reads this, origBuffer
      ensures |v| == off
    {
      origBuffer[buffer..buffer + off]
    }

    constructor ()
      ensures Valid() && stream == [] && totallen == 0 && calls == [] && !hasCallback && fresh(origBuffer)
    {
      origBuffer := new Byte[0];
      buffer, misalign, totallen, off, hasCallback := 0, 0, 0, 0, false;
      stream, consumed, calls := [], 0, [];
    }

    // The callback runs when the length has changed.
    method Notify(oldoff: nat)
      modifies `calls
      ensures calls == old(calls) + if hasCallback then [(oldoff, off)] else []
    {
      if hasCallback {
        calls := calls + [(oldoff, off)];
      }
    }

    method Drain(len: nat)
      requires Valid()
      modifies this
      ensures Valid() && origBuffer == old(origBuffer) && totallen == old(totallen) && stream == old(stream)
      ensures consumed == if len >= old(off) then |stream| else old(consumed) + len
      ensures misalign == if len >= old(off) then 0 else old(misalign) + len
      ensures Visible() == old(Visible())[if len >= old(off) then old(off) else len..]
      ensures hasCallback == old(hasCallback)
      ensures calls == old(calls) + if hasCallback && off != old(off) then [(old(off), off)] else []
    {
      var oldoff := off;
      if len >= off {
        consumed := |stream|;
        off := 0;
        buffer := 0;
        misalign := 0;
      } else {
        consumed := consumed + len;
        buffer := buffer + len;
        misalign := misalign + len;
        off := off - len;
      }
      assert Visible() == old(Visible())[oldoff - off..];
      assert stream[consumed..] == old(stream[consumed..])[oldoff - off..];
      if off != oldoff {
        Notify(oldoff);
      }
    }

    // memmove(orig_buffer, buffer, off): source and target may overlap, so the copy runs forward.
    method Align()
      requires Valid()
      modifies `buffer, `misalign, origBuffer
      ensures Valid() && misalign == 0 && Visible() == old(Visible())
    {
      var i := 0;
      while i < off
        invariant 0 <= i <= off && buffer == old(buffer)
        invariant forall j :: 0 <= j < i ==> origBuffer[j] == old(origBuffer[buffer + j])
        invariant forall j :: buffer + i <= j < origBuffer.Length ==> origBuffer[j] == old(origBuffer[j])
      {
        origBuffer[i] := origBuffer[buffer + i];
        i := i + 1;
      }
      buffer := 0;
      misalign := 0;
      assert origBuffer[..off] == old(origBuffer[buffer..buffer + off]);
    }

    // `granted` is the answer of realloc.
    method Expand(datlen: nat, granted: bool) returns (r: int)
      requires Valid()
      modifies this, origBuffer
      ensures Valid() && stream == old(stream) && consumed == old(consumed) && off == old(off)
      ensures hasCallback == old(hasCallback) && calls == old(calls)
      ensures origBuffer == old(origBuffer) || fresh(origBuffer)
      ensures r == 0 || (r == -1 && !granted && totallen == old(totallen))
      ensures r == 0 ==> misalign + off + datlen <= totallen
      ensures var need := old(misalign) + off + datlen;
        old(totallen) < need && old(misalign) < datlen && r == 0 ==>
          totallen > old(totallen) && (totallen == 256 || totallen < 2 * need)
      ensures var need := old(misalign) + off + datlen;
        old(totallen) >= need || old(misalign) >= datlen ==> r == 0 && totallen == old(totallen) && origBuffer == old(origBuffer)
    {
      var need := misalign + off + datlen;
      if totallen >= need {
        return 0;
      }
      if misalign >= datlen {
        Align();
      } else {
        var length := totallen;
        if length < 256 {
          length := 256;
        }
        while length < need
          invariant length >= 256 && DoubledFrom256(length) && length >= totallen
          invariant length == 256 || length == totallen || length < 2 * need
          decreases need - length
        {
          length := length * 2;
        }
        if buffer != 0 {
          Align();
        }
        if !granted {
          return -1;
        }
        Realloc(length);
      }
      return 0;
    }

    method Realloc(length: nat)
      requires Valid() && buffer == 0 && off <= length && totallen <= length && DoubledFrom256(length)
      modifies `origBuffer, `buffer, `totallen
      ensures Valid() && fresh(origBuffer) && totallen == length
    {
      var newbuf := new Byte[length](_ => 0);
      forall i | 0 <= i < totallen {
        newbuf[i] := origBuffer[i];
      }
      origBuffer, buffer := newbuf, 0;
      totallen := length;
    }

    method Add(data: seq<Byte>, granted: bool) returns (r: int)
      requires Valid()
      modifies this, origBuffer
      ensures Valid() && consumed == old(consumed) && (origBuffer == old(origBuffer) || fresh(origBuffer))
      ensures r == 0 || (r == -1 && !granted)
      ensures r == 0 ==> stream == old(stream) + data && Visible() == old(Visible()) + data
      ensures r == -1 ==> stream == old(stream) && Visible() == old(Visible())
      ensures hasCallback == old(hasCallback)
      ensures calls == old(calls) + if r == 0 && data != [] && hasCallback then [(old(off), off)] else []
    {
      var need := misalign + off + |data|;
      var oldoff := off;
      if totallen < need {
        r := Expand(|data|, granted);
        if r == -1 {
          return;
        }
      }
      Append(data);
      if data != [] {
        Notify(oldoff);
      }
      return 0;
    }

    // memcpy(buffer + off, data, datlen), or the bytes recv has stored there.
    method Append(data: seq<Byte>)
      requires Valid() && misalign + off + |data| <= totallen
      modifies `off, `stream, origBuffer
      ensures Valid() && stream == old(stream) + data && off == old(off) + |data| && Visible() == old(Visible()) + data
    {
      forall i | 0 <= i < |data| {
        origBuffer[buffer + off + i] := data[i];
      }
      off := off + |data|;
      stream := stream + data;
      assert origBuffer[buffer..buffer + old(off)] == old(Visible());
      assert origBuffer[buffer + old(off)..buffer + off] == data;
      assert Visible() == old(Visible()) + data;
    }

    // `pending` is what FIONREAD reports, if it does; `received` what recv stores, if it succeeds.
    method Read(pending: nat, howmuch: int, granted: bool, received: seq<Byte>, failed: bool) returns (n: int)
      requires Valid() && |received| <= ReadLimit(pending, howmuch)
      modifies this, origBuffer
      ensures Valid() && consumed == old(consumed) && (origBuffer == old(origBuffer) || fresh(origBuffer))
      ensures (failed ==> n == -1) && (granted && !failed ==> n == |received|)
      ensures n == -1 ==> stream == old(stream) && Visible() == old(Visible())
      ensures n != -1 ==> n == |received| && stream == old(stream) + received && Visible() == old(Visible()) + received
      ensures calls == old(calls) + if n > 0 && hasCallback then [(old(off), off)] else []
      ensures hasCallback == old(hasCallback)
    {
      var oldoff := off;
      var limit := ReadLimit(pending, howmuch);
      var r := Expand(limit, granted);
      if r == -1 || failed {
        return -1;
      }
      if |received| == 0 {
        return 0;
      }
      Append(received);
      if off != oldoff {
        Notify(oldoff);
      }
      return |received|;
    }

    // `sent` is what send takes, if it succeeds.
    method Write(sent: nat, failed: bool) returns (n: int)
      requires Valid() && sent <= off
      modifies this
      ensures Valid() && origBuffer == old(origBuffer) && stream == old(stream)
      ensures n == if failed then -1 else sent
      ensures consumed == old(consumed) + if failed then 0 else sent
      ensures Visible() == old(Visible())[if failed then 0 else sent..]
      ensures hasCallback == old(hasCallback)
      ensures calls == old(calls) + if n > 0 && hasCallback then [(old(off), off)] else []
    {
      if failed {
        return -1;
      }
      if sent == 0 {
        return 0;
      }
      Drain(sent);
      return sent;
    }
  }

  // How many bytes evbuffer_read asks recv for.
  function ReadLimit(pending: nat, howmuch: int): (limit: nat)
    ensures var most := if pending == 0 then 4096 else pending;
      && limit <= most && (howmuch < 0 ==> limit == most)
      && (0 <= howmuch ==> limit <= howmuch && (limit == howmuch || limit == most))
  {
    var n := if pending == 0 then EVBUFFER_MAX_READ else pending;
    if howmuch < 0 || howmuch > n then n else howmuch
  }
}
