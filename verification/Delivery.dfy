/** Cutting a byte stream into reads: the scripts that deliver a stream, and what a read keeps. */
module Delivery {
  import opened ResponseMachine

  /** All bytes a script still has to deliver. */
  function Bytes(script: seq<ReadEvent>): string {
    if script == [] then ""
    else (if script[0].Data? then script[0].bytes else "") + Bytes(script[1..])
  }

  /** Any cut of a stream into non-empty reads, with any would-blocks between them; once the last
      byte is delivered anything may follow, such as the peer's close. */
  predicate Delivers(script: seq<ReadEvent>) {
    script == [] || ((Bytes(script) == "" || script[0].WouldBlock? || (script[0].Data? && script[0].bytes != ""))
                     && Delivers(script[1..]))
  }

  /** No read ends with between `lo` and `hi` bytes still to come. */
  predicate NoStopIn(script: seq<ReadEvent>, lo: nat, hi: nat) {
    && !(lo <= |Bytes(script)| <= hi)
    && (script != [] ==> NoStopIn(script[1..], lo, hi))
  }

  /** The bytes of the response not consumed yet. */
  function Left(c: Client): string { c.buf + Bytes(c.incoming) }

  /** `b` differs from `a` by reads alone: same bytes left, later in the same delivery. */
  ghost predicate Later(a: Client, b: Client) {
    && Left(b) == Left(a)
    && b == a.(buf := b.buf, incoming := b.incoming)
    && a.incoming != [] && b.incoming == a.incoming[1..]
    && Delivers(b.incoming)
    && |b.buf| + |Bytes(b.incoming)| == |a.buf| + |Bytes(a.incoming)|
  }

  /** A read in a delivering script moves bytes from the script to the buffer, and does nothing else. */
  lemma ReadDelivers(c: Client, stay: State)
    requires Delivers(c.incoming) && Bytes(c.incoming) != ""
    ensures Later(c.(state := stay), ReadMore(c, stay))
  {}

  /** A read moves bytes, whatever event it meets; a closed or failed read loses none. */
  lemma ReadKeepsLeft(c: Client, stay: State)
    ensures Left(ReadMore(c, stay)) == Left(c)
  {}

  lemma {:induction false} NoStopLess(script: seq<ReadEvent>, lo: nat, hi: nat, i: nat)
    requires NoStopIn(script, lo, hi) && i <= |script|
    ensures !(lo <= |Bytes(script[i..])| <= hi)
  {
    if i == 0 {
      assert script[0..] == script;
    } else {
      NoStopLess(script[1..], lo, hi, i - 1);
      assert script[1..][i - 1..] == script[i..];
    }
  }

  /** `NoStopIn` says what it should about every point at which a read can end. */
  lemma {:induction false} NoStopInMeans(script: seq<ReadEvent>, lo: nat, hi: nat)
    ensures NoStopIn(script, lo, hi) <==>
            forall i :: 0 <= i <= |script| ==> !(lo <= |Bytes(script[i..])| <= hi)
  {
    assert script[0..] == script;
    if NoStopIn(script, lo, hi) {
      forall i | 0 <= i <= |script| ensures !(lo <= |Bytes(script[i..])| <= hi) {
        NoStopLess(script, lo, hi, i);
      }
    }
    if forall i :: 0 <= i <= |script| ==> !(lo <= |Bytes(script[i..])| <= hi) {
      NoStopFrom(script, 0, lo, hi);
    }
  }

  lemma {:induction false} NoStopFrom(script: seq<ReadEvent>, i: nat, lo: nat, hi: nat)
    requires i <= |script|
    requires forall k :: 0 <= k <= |script| ==> !(lo <= |Bytes(script[k..])| <= hi)
    ensures NoStopIn(script[i..], lo, hi)
    decreases |script| - i
  {
    if i < |script| {
      NoStopFrom(script, i + 1, lo, hi);
      assert script[i..][1..] == script[i + 1..];
    }
  }

  /** `Delivers` says what it should about every event. */
  lemma {:induction false} DeliversMeans(script: seq<ReadEvent>)
    ensures Delivers(script) <==>
            forall i :: 0 <= i < |script| ==>
              Bytes(script[i..]) == "" || script[i] == WouldBlock || (script[i].Data? && script[i].bytes != "")
  {
    if script == [] {
    } else {
      DeliversMeans(script[1..]);
      assert script[0..] == script;
      assert forall i :: 0 < i < |script| ==> script[1..][i - 1..] == script[i..] && script[1..][i - 1] == script[i];
    }
  }

  /** `later` is what is left of `script` after reads that all began with more than `n` bytes to come. */
  predicate Skips(script: seq<ReadEvent>, later: seq<ReadEvent>, n: nat) {
    script == later || (script != [] && |Bytes(script)| > n && Skips(script[1..], later, n))
  }

  lemma {:induction false} SkipsMore(a: seq<ReadEvent>, b: seq<ReadEvent>, c: seq<ReadEvent>, m: nat, n: nat)
    requires Skips(a, b, m) && Skips(b, c, n) && n <= m
    ensures Skips(a, c, n)
  {
    if a == b {
    } else {
      SkipsMore(a[1..], b, c, m, n);
    }
  }

  /** Reads that began far enough before a window do not change whether one ends in it. */
  lemma {:induction false} SkipsKeepsStops(a: seq<ReadEvent>, b: seq<ReadEvent>, n: nat, lo: nat, hi: nat)
    requires Skips(a, b, n) && hi <= n
    ensures NoStopIn(a, lo, hi) == NoStopIn(b, lo, hi)
  {
    if a == b {
    } else {
      SkipsKeepsStops(a[1..], b, n, lo, hi);
    }
  }

  /** With fewer than `lo` bytes to come, no read can stop in the window. */
  lemma {:induction false} NoStopBelow(script: seq<ReadEvent>, lo: nat, hi: nat)
    requires |Bytes(script)| < lo
    ensures NoStopIn(script, lo, hi)
  {
    if script == [] {
    } else {
      NoStopBelow(script[1..], lo, hi);
    }
  }
}
