/** file_lib.c: copying a file block by block and leaving out the blocks that are all zeros. */
module SparseCopy {
  type Byte = n: int | 0 <= n < 256

  /** What the system makes of one read or write: it moves at most so many bytes, it is interrupted by
      a signal before it moves any, or it fails. */
  datatype Event = Moves(atMost: nat) | Interrupted | Fails

  /** Short and interrupted transfers only. */
  ghost predicate NeverFails(plan: seq<Event>) { forall i :: 0 <= i < |plan| ==> plan[i] != Fails }

  function Zeros(n: nat): (r: seq<Byte>)
    ensures |r| == n && forall i :: 0 <= i < n ==> r[i] == 0
  {
    seq(n, _ => 0)
  }

  predicate AllZero(s: seq<Byte>) { forall i :: 0 <= i < |s| ==> s[i] == 0 }

  /** A file's content, or what is left of it, when it is read up to `n`: beyond the end are zeros. */
  function Padded(s: seq<Byte>, n: nat): (r: seq<Byte>)
    ensures |r| == if |s| < n then n else |s|
  {
    if |s| < n then s + Zeros(n - |s|) else s
  }

  /** The content after writing `data` at `offset`. */
  function Written(s: seq<Byte>, offset: nat, data: seq<Byte>): seq<Byte> {
    var p := Padded(s, offset);
    if offset + |data| <= |p| then p[..offset] + data + p[offset + |data|..] else p[..offset] + data
  }

  /** An open file. */
  class File {
    var content: seq<Byte>
    var offset: nat

    constructor (content: seq<Byte>)
      ensures this.content == content && offset == 0
    {
      this.content := content;
      offset := 0;
    }

    /** lseek from the current position. */
    method SeekForward(count: nat)
      modifies this
      ensures offset == old(offset) + count && content == old(content)
    {
      offset := offset + count;
    }

    /** ftruncate. */
    method Truncate(n: nat)
      modifies this
      ensures content == Padded(old(content), n)[..n] && offset == old(offset)
    {
      content := Padded(content, n)[..n];
    }
  }

  function Min(a: nat, b: nat): nat { if a < b then a else b }

  /** The system, with the events to come; when there are none left it does all it is asked for. */
  class Kernel {
    var plan: seq<Event>

    constructor (plan: seq<Event>)
      ensures this.plan == plan
    {
      this.plan := plan;
    }

    method NextEvent() returns (e: Allowance)
      modifies this
      ensures old(plan) == [] ==> e == Free && plan == []
      ensures old(plan) != [] ==> e == Bound(old(plan)[0]) && plan == old(plan)[1..]
    {
      if plan == [] {
        return Free;
      }
      e := Bound(plan[0]);
      plan := plan[1..];
    }

    /** read: a positive count unless the end is reached, or -1. */
    method Read(f: File, len: nat) returns (n: int, interrupted: bool, data: seq<Byte>)
      requires len > 0
      modifies this, f
      ensures interrupted ==> n == -1 && |plan| < |old(plan)|
      ensures n >= 0 ==> |data| == n <= len && f.offset == old(f.offset) + n
      ensures n >= 0 ==> old(f.offset) + n <= |f.content| || n == 0
      ensures n > 0 ==> data == f.content[old(f.offset)..old(f.offset) + n]
      ensures n == 0 ==> old(f.offset) >= |f.content|
      ensures n < 0 ==> n == -1 && f.offset == old(f.offset)
      ensures f.content == old(f.content) && |plan| <= |old(plan)|
      ensures NeverFails(old(plan)) ==> NeverFails(plan) && (n < 0 ==> interrupted)
    {
      var e := NextEvent();
      data, interrupted := [], false;
      if e == Bound(Interrupted) {
        return -1, true, [];
      }
      if e == Bound(Fails) {
        return -1, false, [];
      }
      if f.offset >= |f.content| {
        return 0, false, [];
      }
      var want := Min(len, |f.content| - f.offset);
      if e.Bound? {
        want := Min(want, if e.event.atMost == 0 then 1 else e.event.atMost);
      }
      n := want;
      data := f.content[f.offset..f.offset + want];
      f.offset := f.offset + want;
    }

    /** write: a positive count, or -1. */
    method Write(f: File, data: seq<Byte>) returns (n: int, interrupted: bool)
      requires data != []
      modifies this, f
      ensures interrupted ==> n == -1 && |plan| < |old(plan)|
      ensures n >= 0 ==> 0 < n <= |data| && f.offset == old(f.offset) + n
      ensures n >= 0 ==> f.content == Written(old(f.content), old(f.offset), data[..n])
      ensures n < 0 ==> n == -1 && f.offset == old(f.offset) && f.content == old(f.content)
      ensures |plan| <= |old(plan)|
      ensures NeverFails(old(plan)) ==> NeverFails(plan) && (n < 0 ==> interrupted)
    {
      var e := NextEvent();
      if e == Bound(Interrupted) {
        return -1, true;
      }
      if e == Bound(Fails) {
        return -1, false;
      }
      n, interrupted := |data|, false;
      if e.Bound? {
        n := Min(n, if e.event.atMost == 0 then 1 else e.event.atMost);
      }
      f.content := Written(f.content, f.offset, data[..n]);
      f.offset := f.offset + n;
    }
  }

  datatype Allowance = Free | Bound(event: Event)

  lemma WrittenTwice(s: seq<Byte>, offset: nat, a: seq<Byte>, b: seq<Byte>)
    requires a != []
    ensures Written(Written(s, offset, a), offset + |a|, b) == Written(s, offset, a + b)
  {
    var p := Padded(s, offset);
    var w := Written(s, offset, a);
    assert |w| >= offset + |a| && Padded(w, offset + |a|) == w;
    assert w[..offset + |a|] == p[..offset] + a;
    if offset + |a| + |b| <= |p| {
      assert w[offset + |a| + |b|..] == p[offset + |a| + |b|..];
    }
    assert p[..offset] + (a + b) == p[..offset] + a + b;
  }

  /** FullWrite: all of it, however often the system writes only a part. */
  method FullWrite(k: Kernel, f: File, data: seq<Byte>) returns (ok: bool)
    modifies k, f
    ensures ok ==> f.offset == old(f.offset) + |data|
    ensures ok && data != [] ==> f.content == Written(old(f.content), old(f.offset), data)
    ensures ok && data == [] ==> f.content == old(f.content)
    ensures NeverFails(old(k.plan)) ==> ok && NeverFails(k.plan)
  {
    hide Written, NeverFails;
    var ptr := data;
    ghost var done := 0;
    while ptr != []
      invariant done <= |data| && ptr == data[done..] && f.offset == old(f.offset) + done
      invariant done > 0 ==> f.content == Written(old(f.content), old(f.offset), data[..done])
      invariant done == 0 ==> f.content == old(f.content)
      invariant NeverFails(old(k.plan)) ==> NeverFails(k.plan)
      decreases |ptr|, |k.plan|
    {
      ghost var was := f.content;
      var n, interrupted := k.Write(f, ptr);
      if n < 0 {
        if interrupted {
          continue;
        }
        return false;
      }
      assert ptr[..n] == data[done..done + n] && data[..done] + ptr[..n] == data[..done + n];
      if done > 0 {
        WrittenTwice(old(f.content), old(f.offset), data[..done], ptr[..n]);
      }
      ptr := ptr[n..];
      done := done + n;
    }
    assert data[..done] == data;
    ok := true;
  }

  /** FullRead: as much as was asked for, or all there is. */
  method FullRead(k: Kernel, f: File, len: nat) returns (ok: bool, data: seq<Byte>)
    requires f.offset <= |f.content|
    modifies k, f
    ensures f.content == old(f.content) && old(f.offset) <= f.offset <= |f.content|
    ensures NeverFails(old(k.plan)) ==> ok && NeverFails(k.plan)
    ensures ok ==> data == f.content[old(f.offset)..f.offset]
    ensures ok ==> f.offset == Min(old(f.offset) + len, |f.content|)
  {
    var left := len;
    data := [];
    while left > 0
      invariant f.content == old(f.content) && old(f.offset) <= f.offset <= |f.content|
      invariant 0 <= left && f.offset + left == old(f.offset) + len
      invariant data == f.content[old(f.offset)..f.offset]
      invariant NeverFails(old(k.plan)) ==> NeverFails(k.plan)
      decreases left, |k.plan|
    {
      var n, interrupted, part := k.Read(f, left);
      if n < 0 {
        if interrupted {
          continue;
        }
        return false, data;
      }
      if n == 0 {
        return true, data;
      }
      data := data + part;
      left := left - n;
    }
    ok := true;
  }

  /** FileSparseWrite: a block of zeros becomes a hole. */
  method FileSparseWrite(k: Kernel, f: File, buf: seq<Byte>) returns (ok: bool, hole: bool)
    requires buf != []
    modifies k, f
    ensures ok ==> f.offset == old(f.offset) + |buf| && hole == AllZero(buf)
    ensures ok ==> f.content == if hole then old(f.content) else Written(old(f.content), old(f.offset), buf)
    ensures NeverFails(old(k.plan)) ==> ok && NeverFails(k.plan)
  {
    hole := AllZero(buf);
    if hole {
      f.SeekForward(|buf|);
      ok := true;
    } else {
      ok := FullWrite(k, f, buf);
    }
  }

  /** The destination stands for the first `n` bytes of the source: what it lacks at its end are zeros
      that the last hole has passed over. */
  ghost predicate StandsFor(content: seq<Byte>, src: seq<Byte>, n: nat, hole: bool) {
    && n <= |src| && |content| <= n && Padded(content, n) == src[..n]
    && (!hole ==> |content| == n)
  }

  lemma HoleStands(content: seq<Byte>, src: seq<Byte>, n: nat, hole: bool, buf: seq<Byte>)
    requires StandsFor(content, src, n, hole) && AllZero(buf) && n + |buf| <= |src| && buf == src[n..n + |buf|]
    ensures StandsFor(content, src, n + |buf|, true)
  {
    var m := n + |buf|;
    var p := Padded(content, m);
    forall i | 0 <= i < m ensures p[i] == src[i] {
      if i < n {
        assert Padded(content, n)[i] == src[..n][i];
      } else {
        assert buf[i - n] == src[i];
      }
    }
    assert p == src[..m];
  }

  lemma DataStands(content: seq<Byte>, src: seq<Byte>, n: nat, hole: bool, buf: seq<Byte>)
    requires StandsFor(content, src, n, hole) && n + |buf| <= |src| && buf == src[n..n + |buf|]
    ensures StandsFor(Written(content, n, buf), src, n + |buf|, false)
  {
    assert src[..n] + buf == src[..n + |buf|];
  }

  /** FileSparseCopyShoveling, from the start of the source to the start of an empty file. */
  method Shovel(k: Kernel, src: File, dst: File, blkSize: nat) returns (ok: bool, total: nat, hole: bool)
    requires blkSize >= 1 && src != dst && src.offset == 0 && dst.offset == 0 && dst.content == []
    modifies k, src, dst
    ensures src.content == old(src.content)
    ensures NeverFails(old(k.plan)) ==> ok && NeverFails(k.plan)
    ensures ok ==> total == |src.content| && dst.offset == total && StandsFor(dst.content, src.content, total, hole)
  {
    total, hole, ok := 0, false, false;
    assert src.content[..0] == [];
    while true
      invariant src.content == old(src.content) && src.offset == total <= |src.content| && dst.offset == total
      invariant StandsFor(dst.content, src.content, total, hole)
      invariant NeverFails(old(k.plan)) ==> NeverFails(k.plan)
      decreases |src.content| - total
    {
      var read, buf := FullRead(k, src, blkSize);
      if !read {
        return false, total, hole;
      }
      if |buf| == 0 {
        return true, total, hole;
      }
      ghost var was, before := dst.content, hole;
      var wrote;
      wrote, hole := FileSparseWrite(k, dst, buf);
      if !wrote {
        return false, total, hole;
      }
      if hole {
        HoleStands(was, src.content, total, before, buf);
      } else {
        DataStands(was, src.content, total, before, buf);
      }
      total := total + |buf|;
    }
  }

  /** FileSparseClose where there are no special system calls: a hole at the end becomes real. */
  method FileSparseClose(k: Kernel, f: File, total: nat, lastWasHole: bool) returns (ok: bool)
    modifies k, f
    ensures ok && !lastWasHole ==> f.content == old(f.content)
    ensures ok && lastWasHole ==> f.content == Padded(Written(old(f.content), old(f.offset), [0]), total)[..total]
    ensures NeverFails(old(k.plan)) ==> ok
  {
    if lastWasHole {
      var wrote := FullWrite(k, f, [0]);
      if !wrote {
        return false;
      }
      f.Truncate(total);
    }
    ok := true;
  }

  lemma ClosedStands(content: seq<Byte>, src: seq<Byte>, n: nat)
    requires StandsFor(content, src, n, true)
    ensures Padded(Written(content, n, [0]), n)[..n] == src[..n]
  {
    assert Written(content, n, [0])[..n] == Padded(content, n);
  }

  /** Whatever parts the system reads and writes at a time and however often it is interrupted: if the
      copy and the close succeed, the destination is the source, byte for byte, zeros at its end
      included; and they succeed unless the system reports an error. */
  method SparseCopyAndClose(k: Kernel, src: File, dst: File, blkSize: nat) returns (ok: bool)
    requires blkSize >= 1 && src != dst && src.offset == 0 && dst.offset == 0 && dst.content == []
    modifies k, src, dst
    ensures ok ==> dst.content == src.content == old(src.content)
    ensures NeverFails(old(k.plan)) ==> ok
  {
    hide StandsFor, Written, Padded;
    var copied, total, hole := Shovel(k, src, dst, blkSize);
    if !copied {
      return false;
    }
    if hole {
      ClosedStands(dst.content, src.content, total);
    } else {
      NoHole(dst.content, src.content, total);
    }
    ok := FileSparseClose(k, dst, total, hole);
    assert src.content[..total] == src.content;
  }

  lemma NoHole(content: seq<Byte>, src: seq<Byte>, n: nat)
    requires StandsFor(content, src, n, false)
    ensures content == src[..n]
  {
  }
}
