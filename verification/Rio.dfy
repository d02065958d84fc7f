/**
 The Rio buffered reader: `rio_read` hands out bytes from an internal buffer that `read` refills in
 chunks of any size, `rio_readnb` and `rio_readlineb` loop over it.  What they deliver depends on
 the byte stream only, not on how `read` cuts it up or is interrupted.
 */
module Rio {
  import opened Machine

  const NEWLINE: byte := 10

  // ---------------------------------------------------------------- the plain byte stream

  /** How many bytes of `u` a line call with room for `m` bytes takes. */
  function LineLength(u: seq<byte>, m: nat): (k: nat)
    ensures k <= m && k <= |u|
  {
    if m == 0 || u == [] then 0 else if u[0] == NEWLINE then 1 else 1 + LineLength(u[1..], m - 1)
  }

  /** No newline among the first `k` bytes. */
  ghost predicate NoNewline(u: seq<byte>, k: nat) {
    forall i :: 0 <= i < k && i < |u| ==> u[i] != NEWLINE
  }

  /** With room for `m` bytes `k` of them are a line: up to the first newline, or the room, or the end of the stream. */
  ghost predicate EndsLine(u: seq<byte>, m: nat, k: int) {
    && 0 <= k <= m && k <= |u|
    && NoNewline(u, if k == 0 then 0 else k - 1)
    && (k == m || k == |u| || (k > 0 && u[k - 1] == NEWLINE))
  }

  /** The line ends after the first newline, at the room given, or at the end of the stream, whichever comes first. */
  lemma {:induction false} LineStopsExactly(u: seq<byte>, m: nat, k: nat)
    ensures k == LineLength(u, m) <==> EndsLine(u, m, k)
    decreases m
  {
    if m > 0 && u != [] && u[0] != NEWLINE && k > 0 {
      LineStopsExactly(u[1..], m - 1, k - 1);
      assert forall i :: 0 <= i < |u| - 1 ==> u[1..][i] == u[i + 1];
      if NoNewline(u[1..], if k == 1 then 0 else k - 2) {
        forall i | 0 <= i < k - 1 && i < |u| ensures u[i] != NEWLINE {
          if i > 0 { assert u[1..][i - 1] == u[i]; }
        }
      }
      if NoNewline(u, k - 1) {
        forall i | 0 <= i < k - 2 && i < |u[1..]| ensures u[1..][i] != NEWLINE {
          assert u[1..][i] == u[i + 1];
        }
      }
    } else if m > 0 && u != [] && k > 1 && u[0] == NEWLINE {
      assert !NoNewline(u, k - 1);
    }
  }

  datatype Call = Line(maxlen: nat) | Bytes(n: nat)

  function Taken(u: seq<byte>, c: Call): (k: nat)
    ensures k <= |u|
  {
    match c
    case Line(maxlen) => if maxlen == 0 then 0 else LineLength(u, maxlen - 1)
    case Bytes(n) => Min(n, |u|)
  }

  /** A line call with room for a zero byte behind them takes such a line; one without takes nothing. */
  lemma LineCallEnds(u: seq<byte>, maxlen: nat)
    ensures if maxlen == 0 then Taken(u, Line(maxlen)) == 0 else EndsLine(u, maxlen - 1, Taken(u, Line(maxlen)))
  {
    if maxlen > 0 { LineStopsExactly(u, maxlen - 1, LineLength(u, maxlen - 1)); }
  }

  /** What each call of a run delivers. */
  function Delivered(u: seq<byte>, cs: seq<Call>): seq<seq<byte>>
    decreases |cs|
  {
    if cs == [] then [] else [u[..Taken(u, cs[0])]] + Delivered(u[Taken(u, cs[0])..], cs[1..])
  }

  function Rest(u: seq<byte>, cs: seq<Call>): seq<byte>
    decreases |cs|
  {
    if cs == [] then u else Rest(u[Taken(u, cs[0])..], cs[1..])
  }

  function Concat(pieces: seq<seq<byte>>): seq<byte> {
    if pieces == [] then [] else pieces[0] + Concat(pieces[1..])
  }

  lemma RunCons(u: seq<byte>, cs: seq<Call>)
    requires cs != []
    ensures var k := Taken(u, cs[0]);
      && Delivered(u, cs) == [u[..k]] + Delivered(u[k..], cs[1..])
      && Rest(u, cs) == Rest(u[k..], cs[1..])
  {}

  lemma ConcatCons(piece: seq<byte>, pieces: seq<seq<byte>>, rest: seq<byte>)
    ensures Concat([piece] + pieces) + rest == piece + (Concat(pieces) + rest)
  {
    assert ([piece] + pieces)[1..] == pieces;
  }

  /** Any mix of calls delivers consecutive bytes of the stream, none lost, repeated or reordered. */
  lemma {:induction false} RunDeliversStream(u: seq<byte>, cs: seq<Call>)
    ensures Concat(Delivered(u, cs)) + Rest(u, cs) == u
    decreases |cs|
  {
    hide Concat;
    if cs == [] {
      assert Concat([]) + u == u by { NoPieces(u); }
    } else {
      hide Delivered, Rest, Taken;
      var k := Taken(u, cs[0]);
      RunCons(u, cs);
      RunDeliversStream(u[k..], cs[1..]);
      ConcatCons(u[..k], Delivered(u[k..], cs[1..]), Rest(u[k..], cs[1..]));
      assert u[..k] + u[k..] == u;
    }
  }

  lemma NoPieces(u: seq<byte>)
    ensures Concat([]) + u == u
  {}

  // ---------------------------------------------------------------- the buffered reader

  /** What the next `read` does: fails with EINTR, fails otherwise, or returns up to `k` bytes. */
  datatype Outcome = Interrupted | Failed | Chunk(k: nat)

  predicate NoFailure(script: seq<Outcome>) { Failed !in script }

  class Reader {
    const buf: array<byte>      // rio_buf
    const stream: seq<byte>     // everything the descriptor will ever deliver
    var pos: nat                // how much of it `read` has returned
    var script: seq<Outcome>    // how the coming `read` calls behave; after that they return all they can
    var cnt: int                // rio_cnt
    var ptr: nat                // rio_bufptr

    ghost predicate Valid()
      reads this
    {
      && 0 < buf.Length && pos <= |stream|
      && (cnt > 0 ==> ptr + cnt <= buf.Length)
    }

    /** The bytes not yet delivered: those in the buffer, then the rest of the stream. */
    ghost function Unread(): seq<byte>
      requires Valid()
      reads this, buf
    {
      (if cnt > 0 then buf[ptr..ptr + cnt] else []) + stream[pos..]
    }

    /** `rio_readinitb`. */
    constructor (bufsize: nat, stream: seq<byte>, script: seq<Outcome>)
      requires bufsize > 0
      ensures Valid() && Unread() == stream && this.script == script && fresh(buf)
    {
      buf := new byte[bufsize](_ => 0);
      this.stream, pos, this.script := stream, 0, script;
      cnt, ptr := 0, 0;
    }

    /** `read` into the whole buffer. */
    method Read() returns (rc: int, eintr: bool)
      requires Valid() && cnt <= 0
      modifies this`pos, this`script, buf
      ensures Valid()
      ensures script == if old(script) == [] then [] else old(script)[1..]
      ensures rc == -1 ==> pos == old(pos) && old(script) != [] && (eintr <==> old(script)[0] == Interrupted) && (!eintr ==> old(script)[0] == Failed)
      ensures rc != -1 ==> 0 <= rc <= buf.Length && pos == old(pos) + rc && buf[..rc] == stream[old(pos)..pos]
      ensures rc == 0 <==> rc != -1 && old(pos) == |stream|
    {
      var k := buf.Length;
      eintr := false;
      if script != [] {
        var o := script[0];
        script := script[1..];
        if o == Interrupted { return -1, true; }
        if o == Failed { return -1, false; }
        k := if o.k == 0 then 1 else o.k;
      }
      rc := Min(k, Min(buf.Length, |stream| - pos));
      forall i | 0 <= i < rc { buf[i] := stream[pos + i]; }
      pos := pos + rc;
    }

    /** `rio_read`: at most `n` bytes to `out[off..]`. */
    method RioRead(out: array<byte>, off: nat, n: nat) returns (rc: int)
      requires Valid() && out != buf && off + n <= out.Length
      modifies this`pos, this`script, this`cnt, this`ptr, buf, out
      ensures Valid() && (NoFailure(old(script)) ==> NoFailure(script) && rc != -1)
      ensures rc == -1 ==> Unread() == old(Unread()) && out[..] == old(out[..])
      ensures rc != -1 ==>
        && 0 <= rc <= n && rc <= |old(Unread())|
        && Spliced(old(out[..]), out[..], off, old(Unread())[..rc])
        && Unread() == old(Unread())[rc..]
        && (rc == 0 ==> n == 0 || old(Unread()) == [])
        && (rc < n ==> cnt == 0)
    {
      hide Unread, NoFailure, Spliced;
      ghost var u, o := Unread(), out[..];
      Nothing(o, off, u);
      rc := Refill();
      if rc <= 0 { return; }
      var m := Min(n, cnt);
      Deliver(out, off, m);
      rc := m;
    }

    /** The copy at the end of `rio_read`. */
    method Deliver(out: array<byte>, off: nat, m: nat)
      requires Valid() && out != buf && 0 < cnt && m <= cnt && off + m <= out.Length
      modifies this`cnt, this`ptr, out
      ensures Valid() && m <= |old(Unread())|
      ensures Spliced(old(out[..]), out[..], off, old(Unread())[..m])
      ensures Unread() == old(Unread())[m..] && cnt == old(cnt) - m
    {
      hide Spliced;
      TakeFrom(buf[ptr..ptr + cnt], stream[pos..], m);
      TakeWithin(buf, ptr, cnt, m);
      Copy(out, off, buf, ptr, m);
      ptr := ptr + m;
      cnt := cnt - m;
    }

    /** The refill loop of `rio_read`: 1 if the buffer has bytes, 0 at end of file, -1 on error. */
    method Refill() returns (rc: int)
      requires Valid()
      modifies this`pos, this`script, this`cnt, this`ptr, buf
      ensures Valid() && Unread() == old(Unread())
      ensures NoFailure(old(script)) ==> NoFailure(script) && rc != -1
      ensures rc == 1 || rc == 0 || rc == -1
      ensures rc == 1 ==> cnt > 0
      ensures rc == 0 ==> Unread() == [] && cnt == 0
    {
      while cnt <= 0
        invariant Valid() && Unread() == old(Unread())
        invariant NoFailure(old(script)) ==> NoFailure(script)
        decreases cnt <= 0, |script|
      {
        ghost var u, s := Unread(), script;
        var got, eintr := Read();
        cnt := got;
        if got < 0 {
          if !eintr { return -1; }
        } else if got == 0 {
          return 0;
        } else {
          ptr := 0;
          assert Unread() == u;
        }
      }
      return 1;
    }
  
    /** `rio_readnb`: `n` bytes, fewer only at end of file. */
    method ReadNb(out: array<byte>, n: nat) returns (rc: int)
      requires Valid() && out != buf && n <= out.Length
      modifies this`pos, this`script, this`cnt, this`ptr, buf, out
      ensures Valid() && (NoFailure(old(script)) ==> NoFailure(script) && rc != -1)
      ensures rc != -1 ==>
        && rc == (if n < |old(Unread())| then n else |old(Unread())|)
        && Spliced(old(out[..]), out[..], 0, old(Unread())[..rc])
        && Unread() == old(Unread())[rc..]
      ensures rc == -1 ==> IsTail(Unread(), old(Unread()))
    {
      hide Unread, NoFailure, Spliced, IsTail, Progress;
      ghost var u, o := Unread(), out[..];
      ProgressStart(u, o);
      var nleft: nat := n;
      while nleft > 0
        invariant Valid() && nleft <= n && Progress(u, o, Unread(), out[..], n - nleft)
        invariant NoFailure(old(script)) ==> NoFailure(script)
        decreases nleft
      {
        ghost var v, o1 := Unread(), out[..];
        var nread := RioRead(out, n - nleft, nleft);
        if nread < 0 {
          ProgressEnd(u, o, v, o1, n - nleft);
          return -1;
        }
        ProgressStep(u, o, v, o1, out[..], n - nleft, nread);
        nleft := nleft - nread;
        if nread == 0 { break; }
      }
      ProgressEnd(u, o, Unread(), out[..], n - nleft);
      return n - nleft;
    }

    /** `rio_readlineb`: a line of at most `maxlen - 1` bytes, closed by a zero byte, which is written even for `maxlen` 0. */
    method ReadLineB(out: array<byte>, maxlen: nat) returns (rc: int)
      requires Valid() && out != buf && maxlen <= out.Length && 0 < out.Length
      modifies this`pos, this`script, this`cnt, this`ptr, buf, out
      ensures Valid() && (NoFailure(old(script)) ==> NoFailure(script) && rc != -1)
      ensures rc != -1 ==>
        && rc == Taken(old(Unread()), Line(maxlen))
        && out[..rc] == old(Unread())[..rc]
        && Unread() == old(Unread())[rc..]
        && (rc > 0 || maxlen <= 1 ==> out[rc] == 0)
        && SameBehind(old(out[..]), out[..], rc + 1)
      ensures rc != -1 ==> if maxlen == 0 then rc == 0 else EndsLine(old(Unread()), maxlen - 1, rc)
      ensures rc == -1 ==> IsTail(Unread(), old(Unread()))
    {
      hide Unread, NoFailure, Taken, IsTail, EndsLine, SameBehind;
      LineCallEnds(Unread(), maxlen);
      rc := ReadLine(out, maxlen);
    }

    /** The loop of `rio_readlineb` and what follows it. */
    method ReadLine(out: array<byte>, maxlen: nat) returns (rc: int)
      requires Valid() && out != buf && maxlen <= out.Length && 0 < out.Length
      modifies this`pos, this`script, this`cnt, this`ptr, buf, out
      ensures Valid() && (NoFailure(old(script)) ==> NoFailure(script) && rc != -1)
      ensures rc != -1 ==>
        && rc == Taken(old(Unread()), Line(maxlen))
        && out[..rc] == old(Unread())[..rc]
        && Unread() == old(Unread())[rc..]
        && (rc > 0 || maxlen <= 1 ==> out[rc] == 0)
        && SameBehind(old(out[..]), out[..], rc + 1)
      ensures rc == -1 ==> IsTail(Unread(), old(Unread()))
    {
      hide Unread, NoFailure, LineLength, IsTail, SameBehind;
      ghost var u, o := Unread(), out[..];
      Untouched(o);
      var n := 1;
      while n < maxlen
        invariant Valid() && 1 <= n && (n == 1 || n <= maxlen) && n - 1 <= |u|
        invariant NoFailure(old(script)) ==> NoFailure(script)
        invariant Unread() == u[n - 1..] && out[..n - 1] == u[..n - 1] && SameBehind(o, out[..], n - 1)
        invariant maxlen > 0 ==> LineLength(u, maxlen - 1) == n - 1 + LineLength(u[n - 1..], maxlen - n)
        decreases maxlen - n
      {
        LineStep(u, n - 1, maxlen - n);
        var c;
        rc, c := ReadChar();
        if rc == 1 {
          Store(out, n - 1, c, u, o);
          if c == NEWLINE {
            n := n + 1;
            break;
          }
        } else if rc == 0 {
          if n == 1 {
            BehindMore(o, out[..]);
            return 0;
          }
          break;
        } else {
          TailOf(u, n - 1);
          return -1;
        }
        n := n + 1;
      }
      if maxlen > 0 { LineStep(u, n - 1, maxlen - n); }
      Close(out, n - 1, o);
      return n - 1;
    }

    /** `*bufp++ = c`, where `c` continues the prefix of `u` already in `out`. */
    method Store(out: array<byte>, i: nat, c: byte, ghost u: seq<byte>, ghost o: seq<byte>)
      requires i < out.Length && i < |u| && out[..i] == u[..i] && c == u[i]
      modifies out
      ensures out[..i + 1] == u[..i + 1]
      ensures SameBehind(o, old(out[..]), i) ==> SameBehind(o, out[..], i + 1)
    {
      out[i] := c;
      assert out[..i + 1] == out[..i] + [c];
      assert u[..i + 1] == u[..i] + [u[i]];
    }

    /** `*bufp = 0`. */
    method Close(out: array<byte>, i: nat, ghost o: seq<byte>)
      requires i < out.Length && SameBehind(o, out[..], i)
      modifies out
      ensures out[..i] == old(out[..i]) && out[i] == 0 && SameBehind(o, out[..], i + 1)
    {
      out[i] := 0;
    }

    /** `rio_read` of one byte into a local variable. */
    method ReadChar() returns (rc: int, c: byte)
      requires Valid()
      modifies this`pos, this`script, this`cnt, this`ptr, buf
      ensures Valid() && (NoFailure(old(script)) ==> NoFailure(script) && rc != -1)
      ensures rc == 1 ==> old(Unread()) != [] && c == old(Unread())[0] && Unread() == old(Unread())[1..]
      ensures rc == 0 ==> old(Unread()) == [] && Unread() == []
      ensures rc == 1 || rc == 0 || (rc == -1 && Unread() == old(Unread()))
    {
      hide Unread, NoFailure;
      var one := new byte[1](_ => 0);
      ghost var u := Unread();
      rc := RioRead(one, 0, 1);
      c := one[0];
      if rc == 1 { assert one[..][0] == u[..1][0]; }
    }

    /** Any mix of line and block reads, with no error but interrupts. */
    method Session(calls: seq<Call>) returns (pieces: seq<seq<byte>>)
      requires Valid() && NoFailure(script)
      modifies this`pos, this`script, this`cnt, this`ptr, buf
      ensures Valid() && pieces == Delivered(old(Unread()), calls) && Unread() == Rest(old(Unread()), calls)
      ensures Concat(pieces) + Unread() == old(Unread())
    {
      ghost var u := Unread();
      pieces := [];
      var i := 0;
      while i < |calls|
        invariant Valid() && NoFailure(script) && 0 <= i <= |calls|
        invariant pieces + Delivered(Unread(), calls[i..]) == Delivered(u, calls)
        invariant Rest(Unread(), calls[i..]) == Rest(u, calls)
      {
        ghost var v, k := Unread(), Taken(Unread(), calls[i]);
        var piece := Serve(calls[i]);
        pieces := pieces + [piece];
        assert calls[i..][1..] == calls[i + 1..];
        i := i + 1;
      }
      assert calls[i..] == [];
      RunDeliversStream(u, calls);
    }

    method Serve(call: Call) returns (piece: seq<byte>)
      requires Valid() && NoFailure(script)
      modifies this`pos, this`script, this`cnt, this`ptr, buf
      ensures Valid() && NoFailure(script)
      ensures piece == old(Unread())[..Taken(old(Unread()), call)]
      ensures Unread() == old(Unread())[Taken(old(Unread()), call)..]
    {
      hide Unread, NoFailure, Spliced, LineLength;
      match call
      case Bytes(n) =>
        var out := new byte[n](_ => 0);
        ghost var u, o := Unread(), out[..];
        var rc := ReadNb(out, n);
        Front(o, out[..], u[..rc]);
        piece := out[..rc];
      case Line(maxlen) =>
        var out := new byte[if maxlen == 0 then 1 else maxlen](_ => 0);
        var rc := ReadLineB(out, maxlen);
        piece := out[..rc];
    }
  }

  /** One byte of a line, at distance `d` from its start. */
  lemma LineStep(u: seq<byte>, d: nat, m: nat)
    requires d <= |u|
    ensures m == 0 || d == |u| ==> LineLength(u[d..], m) == 0
    ensures m > 0 && d < |u| && u[d] == NEWLINE ==> LineLength(u[d..], m) == 1
    ensures m > 0 && d < |u| && u[d] != NEWLINE ==> LineLength(u[d..], m) == 1 + LineLength(u[d + 1..], m - 1)
    ensures d < |u| ==> u[d..] != [] && u[d..][0] == u[d] && u[d..][1..] == u[d + 1..]
  {
    if d < |u| { assert u[d..][1..] == u[d + 1..]; }
  }

  /** From index `k` on nothing changed. */
  ghost predicate SameBehind(o: seq<byte>, o': seq<byte>, k: int) {
    |o| == |o'| && forall j :: k <= j < |o| && 0 <= j ==> o'[j] == o[j]
  }

  lemma Untouched(o: seq<byte>)
    ensures SameBehind(o, o, 0)
  {}

  lemma BehindMore(o: seq<byte>, o': seq<byte>)
    requires SameBehind(o, o', 0)
    ensures SameBehind(o, o', 1)
  {}

  /** `o'` is `o` with `piece` written over it at `off`. */
  ghost predicate Spliced(o: seq<byte>, o': seq<byte>, off: nat, piece: seq<byte>) {
    off + |piece| <= |o| && o' == o[..off] + piece + o[off + |piece|..]
  }

  /** `memcpy` between two arrays. */
  method Copy(out: array<byte>, off: nat, from: array<byte>, at: nat, m: nat)
    requires out != from && off + m <= out.Length && at + m <= from.Length
    modifies out
    ensures Spliced(old(out[..]), out[..], off, from[at..at + m])
  {
    ghost var o, piece := out[..], from[at..at + m];
    forall i | 0 <= i < m { out[off + i] := from[at + i]; }
    assert out[..] == o[..off] + piece + o[off + m..];
  }

  lemma TakeWithin(a: array<byte>, at: nat, n: nat, m: nat)
    requires m <= n && at + n <= a.Length
    ensures a[at..at + n][..m] == a[at..at + m] && a[at..at + n][m..] == a[at + m..at + n]
  {}

  /** `v` is what is left of `u` after some of its bytes. */
  predicate IsTail(v: seq<byte>, u: seq<byte>) { |v| <= |u| && v == u[|u| - |v|..] }

  lemma TailOf(u: seq<byte>, d: nat)
    requires d <= |u|
    ensures IsTail(u[d..], u)
  {}

  lemma TakeFrom(a: seq<byte>, b: seq<byte>, m: nat)
    requires m <= |a|
    ensures (a + b)[..m] == a[..m] && (a + b)[m..] == a[m..] + b
  {}

  lemma Nothing(o: seq<byte>, off: nat, u: seq<byte>)
    requires off <= |o|
    ensures Spliced(o, o, off, u[..0]) && u[0..] == u
  {}

  lemma Front(o: seq<byte>, o': seq<byte>, piece: seq<byte>)
    requires Spliced(o, o', 0, piece)
    ensures |piece| <= |o'| == |o| && o'[..|piece|] == piece
  {}

  /** `d` bytes of `u` have been put at the front of `o`, giving `o'`, and `v` is left. */
  ghost predicate Progress(u: seq<byte>, o: seq<byte>, v: seq<byte>, o': seq<byte>, d: nat) {
    d <= |u| && v == u[d..] && Spliced(o, o', 0, u[..d])
  }

  lemma ProgressStart(u: seq<byte>, o: seq<byte>)
    ensures Progress(u, o, u, o, 0)
  {}

  /** The next `k` bytes are added. */
  lemma ProgressStep(u: seq<byte>, o: seq<byte>, v: seq<byte>, o1: seq<byte>, o2: seq<byte>, d: nat, k: nat)
    requires Progress(u, o, v, o1, d) && k <= |v| && Spliced(o1, o2, d, v[..k])
    ensures Progress(u, o, v[k..], o2, d + k)
  {
    assert u[..d + k] == u[..d] + u[d..][..k];
    assert o1[d + k..] == o[d + k..];
  }

  lemma ProgressEnd(u: seq<byte>, o: seq<byte>, v: seq<byte>, o': seq<byte>, d: nat)
    requires Progress(u, o, v, o', d)
    ensures d <= |u| && v == u[d..] && Spliced(o, o', 0, u[..d]) && IsTail(v, u) && (v == [] ==> d == |u|)
  {}
}
