/** The EDL transport: one fixed array behind `read`, `fill_buf` and `consume`. */
module EdlTransport {
  import opened Bytes
  import opened Wrappers
  import S = EdlSpec

  class EdlUsbTransport {
    const buf: array<byte>
    var pos: nat
    var cap: nat
    var transfers: seq<Option<seq<byte>>>

    ghost predicate Valid()
      reads this
    {
      pos <= cap <= buf.Length == S.BUF_SIZE
    }

    ghost function Abs(): S.State
      requires Valid()
      reads this, buf
    {
      S.State(buf[pos..cap], transfers)
    }

    constructor (transfers: seq<Option<seq<byte>>>)
      ensures Valid() && fresh(buf) && Abs() == S.State([], transfers)
    {
      buf := new byte[S.BUF_SIZE](_ => 0);
      pos, cap := 0, 0;
      this.transfers := transfers;
    }

    method BulkIn(capacity: nat) returns (t: Option<seq<byte>>)
      modifies this`transfers
      ensures t == S.BulkIn(old(transfers), capacity) && transfers == Tail(old(transfers))
    {
      t := S.BulkIn(transfers, capacity);
      transfers := Tail(transfers);
    }

    /** Keeps as much of `data` as the array holds. */
    method Store(data: seq<byte>)
      requires Valid()
      modifies this`pos, this`cap, buf
      ensures Valid() && pos == 0 && cap == Min(|data|, S.BUF_SIZE) && buf[pos..cap] == data[..cap]
    {
      var n := Min(|data|, buf.Length);
      forall i | 0 <= i < n {
        buf[i] := data[i];
      }
      pos, cap := 0, n;
    }

    /** Fills the caller's array from its start.  What is left over is under 64 bytes, so it always fits. */
    method Read(out: array<byte>) returns (ok: bool, n: nat)
      requires Valid() && out != buf
      modifies this`pos, this`cap, this`transfers, buf, out
      ensures Valid() && n <= out.Length
      ensures var s := S.ReadStep(old(Abs()), out.Length); Abs() == s.state && ok == s.ok && out[..n] == s.taken
      ensures out[n..] == old(out[n..])
    {
      if pos < cap {
        n := Min(cap - pos, out.Length);
        CopyOut(buf[pos..pos + n], out, 0);
        ok, pos := true, pos + n;
        return;
      }
      var t := BulkIn(Max(out.Length, 64));
      if t.None? {
        return false, 0;
      }
      n := Min(|t.value|, out.Length);
      CopyOut(t.value[..n], out, 0);
      if |t.value| > n {
        Store(t.value[n..]);
      }
      ok := true;
    }

    method FillBuf() returns (ok: bool, view: seq<byte>)
      requires Valid()
      modifies this`pos, this`cap, this`transfers, buf
      ensures Valid()
      ensures var s := S.FillStep(old(Abs())); Abs() == s.state && ok == s.ok
      ensures view == if ok then Abs().pending else []
    {
      if pos >= cap {
        var t := BulkIn(S.USB_READ_BUF);
        if t.None? {
          return false, [];
        }
        Store(t.value);
      }
      ok, view := true, buf[pos..cap];
    }

    method Consume(amount: nat)
      requires Valid()
      modifies this`pos
      ensures Valid() && Abs() == S.ConsumeStep(old(Abs()), amount).state
    {
      pos := Min(pos + amount, cap);
    }
  }
}
