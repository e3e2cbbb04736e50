/**
 * A byte-stream transport as a script of what its reads will return, and
 * the standard library's `read_exact` over it.
 *
 * A `Data(bytes)` event is what the peer has made available; a read asking
 * for `n > 0` bytes takes at most `n` of them and leaves the rest for the
 * next read. `Data([])` is a read that returns 0 (the peer closed), and so is
 * any read once the script is used up. `WouldBlock` is a non-blocking read
 * with nothing available, `Fail` any other I/O error.
 */
module Transport {
  import opened Bytes
  import opened Wrappers

  datatype ReadEvent = Data(bytes: seq<Byte>) | WouldBlock | Fail

  datatype ReadOutcome = Got(bytes: seq<Byte>) | Blocked | Failed

  /** The kinds of `std::io::Error` the model tells apart. */
  datatype IoErrorKind = UnexpectedEof | WouldBlockKind | OtherIo

  /** What is left to deliver: one per event plus one per byte (a termination measure). */
  function Weight(s: seq<ReadEvent>): nat
  {
    if s == [] then 0
    else 1 + (if s[0].Data? then |s[0].bytes| else 0) + Weight(s[1..])
  }

  /** The bytes the script delivers, in order. */
  function Flatten(s: seq<ReadEvent>): seq<Byte>
  {
    if s == [] then [] else (if s[0].Data? then s[0].bytes else []) + Flatten(s[1..])
  }

  /** A script that never fails and never closes: data (possibly split anywhere) and would-blocks. */
  predicate Clean(s: seq<ReadEvent>)
  {
    forall i :: 0 <= i < |s| ==> s[i].WouldBlock? || (s[i].Data? && s[i].bytes != [])
  }

  /** Taking the head off `d` and appending `t` to what is left gives `d + t`. */
  lemma HeadAppend<T>(d: seq<T>, t: seq<T>)
    requires d != []
    ensures d + t == [d[0]] + (d[1..] + t)
  {
    assert d == [d[0]] + d[1..];
  }

  /** The head and the tail of `d + t` when `d` is not empty. */
  lemma HeadOfAppend<T>(d: seq<T>, t: seq<T>)
    requires d != []
    ensures (d + t)[0] == d[0] && (d + t)[1..] == d[1..] + t
  {
  }

  /** Appending to a sequence built from its head. */
  lemma ConsAppend<T>(x: T, u: seq<T>, t: seq<T>)
    ensures [x] + u + t == [x] + (u + t)
  {
  }

  /** Cutting `x + y` at `k`, past the end of `x`, cuts `y` at `k - |x|`. */
  lemma SplitAt<T>(x: seq<T>, y: seq<T>, k: nat)
    requires |x| <= k <= |x| + |y|
    ensures (x + y)[..k] == x + y[..k - |x|]
    ensures (x + y)[k..] == y[k - |x|..]
  {
  }

  lemma CleanTail(s: seq<ReadEvent>)
    requires s != []
    ensures Clean(s) ==> Clean(s[1..])
  {
    forall i | 0 <= i < |s[1..]| ensures s[1..][i] == s[i + 1] { }
  }

  lemma {:induction false} FlattenAppend(a: seq<ReadEvent>, b: seq<ReadEvent>)
    ensures Flatten(a + b) == Flatten(a) + Flatten(b)
  {
    if a != [] {
      assert (a + b)[0] == a[0];
      assert (a + b)[1..] == a[1..] + b;
      FlattenAppend(a[1..], b);
    } else {
      assert a + b == b;
    }
  }

  /**
   * One `read` into a buffer of `n` bytes: the outcome and the script that
   * remains. Data is returned in order and never more than asked for.
   */
  function Read(s: seq<ReadEvent>, n: nat): (res: (ReadOutcome, seq<ReadEvent>))
    requires n > 0
    ensures s == [] ==> res == (Got([]), [])
    ensures s != [] ==> Weight(res.1) < Weight(s)
    ensures res.0.Got? ==> |res.0.bytes| <= n
    ensures res.0.Got? ==> res.0.bytes + Flatten(res.1) == Flatten(s)
    ensures !res.0.Got? ==> Flatten(res.1) == Flatten(s)
  {
    if s == [] then (Got([]), [])
    else
      var rest := s[1..];
      match s[0]
      case Data(b) =>
        if |b| <= n then (Got(b), rest)
        else
          assert b == b[..n] + b[n..];
          (Got(b[..n]), [Data(b[n..])] + rest)
      case WouldBlock => (Blocked, rest)
      case Fail => (Failed, rest)
  }

  /** A read from a script that never fails and never closes neither fails nor closes, and leaves such a script. */
  lemma ReadClean(s: seq<ReadEvent>, n: nat)
    requires n > 0 && Clean(s)
    ensures Clean(Read(s, n).1) && !Read(s, n).0.Failed?
    ensures Read(s, n).0.Got? && s != [] ==> Read(s, n).0.bytes != []
  {
    if s != [] {
      CleanTail(s);
      if s[0].Data? && |s[0].bytes| > n {
        CleanSplitHead(s, n);
      }
    }
  }

  /**
   * `Read::read_exact` for `n` bytes: reads until `n` bytes have arrived. A
   * read of 0 bytes first is `UnexpectedEof`; would-block and every other
   * error are returned as they are (only `Interrupted` is retried, and the
   * model has no such event).
   */
  function ReadExact(s: seq<ReadEvent>, n: nat): (res: (Result<seq<Byte>, IoErrorKind>, seq<ReadEvent>))
    decreases Weight(s)
  {
    if n == 0 then (Ok([]), s)
    else
      var first := Read(s, n);
      match first.0
      case Got(b) =>
        if b == [] then (Err(UnexpectedEof), first.1)
        else
          var more := ReadExact(first.1, n - |b|);
          if more.0.Ok? then (Ok(b + more.0.value), more.1)
          else more
      case Blocked => (Err(WouldBlockKind), first.1)
      case Failed => (Err(OtherIo), first.1)
  }

  /**
   * Whatever the script does, a successful `read_exact` returns exactly `n`
   * bytes, the next ones the script delivers, and leaves the rest.
   */
  lemma {:induction false} ReadExactConserves(s: seq<ReadEvent>, n: nat)
    requires ReadExact(s, n).0.Ok?
    ensures |ReadExact(s, n).0.value| == n
    ensures ReadExact(s, n).0.value + Flatten(ReadExact(s, n).1) == Flatten(s)
    decreases Weight(s)
  {
    if n > 0 {
      var first := Read(s, n);
      assert first.0.Got? && first.0.bytes != [];
      var b := first.0.bytes;
      var more := ReadExact(first.1, n - |b|);
      assert ReadExact(s, n) == (Ok(b + more.0.value), more.1);
      ReadExactConserves(first.1, n - |b|);
      AppendAssoc(b, more.0.value, Flatten(more.1));
    }
  }

  lemma AppendAssoc(a: seq<Byte>, b: seq<Byte>, c: seq<Byte>)
    ensures a + b + c == a + (b + c)
  {
  }

  /** Data events only, none of them empty: the bytes are there without waiting. */
  predicate Ready(s: seq<ReadEvent>)
  {
    forall i :: 0 <= i < |s| ==> s[i].Data? && s[i].bytes != []
  }

  lemma ReadyIsClean(d: seq<ReadEvent>, t: seq<ReadEvent>)
    requires Ready(d) && Clean(t)
    ensures Clean(d + t)
  {
    forall i | 0 <= i < |d + t| ensures (d + t)[i].WouldBlock? || ((d + t)[i].Data? && (d + t)[i].bytes != []) {
      if i < |d| { assert (d + t)[i] == d[i]; } else { assert (d + t)[i] == t[i - |d|]; }
    }
  }

  /** The first read of a ready script takes from its first event. */
  lemma ReadReadyHead(d: seq<ReadEvent>, t: seq<ReadEvent>, n: nat)
    requires Ready(d) && d != [] && n > 0
    ensures |d[0].bytes| <= n ==> Read(d + t, n) == (Got(d[0].bytes), d[1..] + t)
    ensures |d[0].bytes| > n ==> Read(d + t, n) == (Got(d[0].bytes[..n]), [Data(d[0].bytes[n..])] + (d[1..] + t))
  {
    assert (d + t)[0] == d[0] && (d + t)[1..] == d[1..] + t;
  }

  /** `read_exact` after a first read that returned data. */
  lemma ReadExactStep(s: seq<ReadEvent>, n: nat, b: seq<Byte>, s1: seq<ReadEvent>)
    requires n > 0 && b != [] && Read(s, n) == (Got(b), s1)
    ensures ReadExact(s, n) ==
      (if ReadExact(s1, n - |b|).0.Ok? then Ok(b + ReadExact(s1, n - |b|).0.value) else ReadExact(s1, n - |b|).0,
       ReadExact(s1, n - |b|).1)
  {
  }

  /**
   * When the first `n` bytes are already there (`d`), `read_exact` returns
   * exactly them, however `d` is split, and leaves the rest of the script.
   */
  lemma {:induction false} ReadExactReady(d: seq<ReadEvent>, t: seq<ReadEvent>, n: nat)
    requires Ready(d) && Clean(t) && n <= |Flatten(d)|
    ensures ReadExact(d + t, n).0 == Ok(Flatten(d)[..n])
    ensures Clean(ReadExact(d + t, n).1) && Flatten(ReadExact(d + t, n).1) == Flatten(d)[n..] + Flatten(t)
    decreases |d|
  {
    if n == 0 {
      ReadyIsClean(d, t);
      FlattenAppend(d, t);
    } else if |d[0].bytes| <= n {
      ReadExactReadyWhole(d, t, n);
    } else {
      ReadExactReadySplit(d, t, n);
    }
  }

  lemma {:induction false} ReadExactReadyWhole(d: seq<ReadEvent>, t: seq<ReadEvent>, n: nat)
    requires Ready(d) && Clean(t) && 0 < n <= |Flatten(d)| && |d[0].bytes| <= n
    ensures ReadExact(d + t, n).0 == Ok(Flatten(d)[..n])
    ensures Clean(ReadExact(d + t, n).1) && Flatten(ReadExact(d + t, n).1) == Flatten(d)[n..] + Flatten(t)
    decreases |d|, 0
  {
    var b := d[0].bytes;
    assert Flatten(d) == b + Flatten(d[1..]);
    ReadReadyHead(d, t, n);
    assert Ready(d[1..]);
    ReadExactStep(d + t, n, b, d[1..] + t);
    ReadExactReady(d[1..], t, n - |b|);
    assert Flatten(d)[..n] == b + Flatten(d[1..])[..n - |b|];
    assert Flatten(d)[n..] == Flatten(d[1..])[n - |b|..];
  }

  lemma ReadExactReadySplit(d: seq<ReadEvent>, t: seq<ReadEvent>, n: nat)
    requires Ready(d) && Clean(t) && 0 < n <= |Flatten(d)| && |d[0].bytes| > n
    ensures ReadExact(d + t, n).0 == Ok(Flatten(d)[..n])
    ensures Clean(ReadExact(d + t, n).1) && Flatten(ReadExact(d + t, n).1) == Flatten(d)[n..] + Flatten(t)
  {
    var b := d[0].bytes;
    ReadReadyHead(d, t, n);
    var s1 := [Data(b[n..])] + (d[1..] + t);
    ReadExactStep(d + t, n, b[..n], s1);
    assert ReadExact(s1, 0) == (Ok([]), s1);
    assert b[..n] + [] == b[..n];
    SplitHeadRest(d, t, n);
  }

  /** What a read that takes only part of the first event leaves behind. */
  lemma SplitHeadRest(d: seq<ReadEvent>, t: seq<ReadEvent>, n: nat)
    requires Ready(d) && Clean(t) && 0 < n && d != [] && |d[0].bytes| > n
    ensures Flatten(d)[..n] == d[0].bytes[..n]
    ensures Clean([Data(d[0].bytes[n..])] + (d[1..] + t))
    ensures Flatten([Data(d[0].bytes[n..])] + (d[1..] + t)) == Flatten(d)[n..] + Flatten(t)
  {
    var b := d[0].bytes;
    assert Flatten(d) == b + Flatten(d[1..]);
    assert Ready(d[1..]);
    ReadyIsClean([Data(b[n..])] + d[1..], t);
    assert [Data(b[n..])] + d[1..] + t == [Data(b[n..])] + (d[1..] + t);
    FlattenAppend([Data(b[n..])] + d[1..], t);
    FlattenAppend([Data(b[n..])], d[1..]);
    assert Flatten([Data(b[n..])]) == b[n..];
    assert Flatten(d)[n..] == b[n..] + Flatten(d[1..]);
  }

  /** A clean script whose first event is cut after `n` bytes is still clean, and lighter. */
  lemma CleanSplitHead(d: seq<ReadEvent>, n: nat)
    requires Clean(d) && d != [] && d[0].Data? && 0 < n < |d[0].bytes|
    ensures Clean([Data(d[0].bytes[n..])] + d[1..])
    ensures Flatten([Data(d[0].bytes[n..])] + d[1..]) == d[0].bytes[n..] + Flatten(d[1..])
    ensures Flatten(d) == d[0].bytes[..n] + Flatten([Data(d[0].bytes[n..])] + d[1..])
    ensures Weight([Data(d[0].bytes[n..])] + d[1..]) < Weight(d)
  {
    CleanCutHead(d, n);
    CutHead(d[0].bytes, n, d[1..]);
  }

  /** Cutting the first event of a clean script after `n` of its bytes leaves it clean. */
  lemma CleanCutHead(d: seq<ReadEvent>, n: nat)
    requires Clean(d) && d != [] && d[0].Data? && 0 < n < |d[0].bytes|
    ensures Clean([Data(d[0].bytes[n..])] + d[1..])
  {
    var d' := [Data(d[0].bytes[n..])] + d[1..];
    forall i | 0 <= i < |d'| ensures d'[i].WouldBlock? || (d'[i].Data? && d'[i].bytes != []) {
      if i > 0 { assert d'[i] == d[i]; }
    }
  }

  /** The bytes and the weight of a script whose first event `b` is cut after `n` bytes. */
  lemma CutHead(b: seq<Byte>, n: nat, rest: seq<ReadEvent>)
    requires n <= |b|
    ensures Flatten([Data(b[n..])] + rest) == b[n..] + Flatten(rest)
    ensures Flatten([Data(b)] + rest) == b[..n] + Flatten([Data(b[n..])] + rest)
    ensures n > 0 ==> Weight([Data(b[n..])] + rest) < Weight([Data(b)] + rest)
  {
    var d, d' := [Data(b)] + rest, [Data(b[n..])] + rest;
    assert d[1..] == rest && d'[1..] == rest;
    assert b + Flatten(rest) == b[..n] + (b[n..] + Flatten(rest)) by {
      assert b == b[..n] + b[n..];
    }
  }

  /** A script that ends, blocks or fails before `n` bytes have arrived makes `read_exact` fail. */
  lemma {:induction false} ReadExactShort(s: seq<ReadEvent>, n: nat)
    requires |Flatten(s)| < n
    ensures ReadExact(s, n).0.Err?
    decreases Weight(s)
  {
    if s != [] {
      var (o, s1) := Read(s, n);
      if o.Got? && o.bytes != [] {
        ReadExactShort(s1, n - |o.bytes|);
      }
    }
  }

  /**
   * `read_exact` gives up on the first would-block: `n` bytes announced
   * across a would-block are an error, not a wait.
   */
  lemma {:induction false} ReadExactWouldBlock(d: seq<ReadEvent>, t: seq<ReadEvent>, n: nat)
    requires Clean(d) && forall i :: 0 <= i < |d| ==> d[i].Data?
    requires |Flatten(d)| < n
    ensures ReadExact(d + [WouldBlock] + t, n).0 == Err(WouldBlockKind)
    decreases |d|
  {
    var s := d + [WouldBlock] + t;
    if d == [] {
      assert s[0] == WouldBlock;
    } else {
      assert s[0] == d[0] && s[1..] == d[1..] + [WouldBlock] + t;
      CleanTail(d);
      var b := d[0].bytes;
      assert Flatten(d) == b + Flatten(d[1..]);
      ReadExactWouldBlock(d[1..], t, n - |b|);
    }
  }
}
