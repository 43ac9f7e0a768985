// The key under which CommitLog.TopicQueueTable counts a queue: topic + "-" + queueId.

module QueueKeys {
  import opened Bytes

  const DASH: byte := 45

  function Digits(n: nat): (d: seq<byte>)
    ensures d != [] && forall i :: 0 <= i < |d| ==> 48 <= d[i] <= 57
  {
    if n < 10 then [48 + n] else Digits(n / 10) + [48 + n % 10]
  }

  // strconv.Itoa
  function Itoa(n: int): seq<byte> {
    if n < 0 then [DASH] + Digits(-n) else Digits(n)
  }

  function Key(topic: seq<byte>, queueId: int): seq<byte> {
    topic + [DASH] + Itoa(queueId)
  }

  lemma {:induction false} DigitsInjective(m: nat, n: nat)
    requires Digits(m) == Digits(n)
    ensures m == n
  {
    var d := Digits(m);
    if m >= 10 && n >= 10 {
      assert d[..|d| - 1] == Digits(m / 10) == Digits(n / 10);
      DigitsInjective(m / 10, n / 10);
      assert d[|d| - 1] == 48 + m % 10 == 48 + n % 10;
    }
  }

  // The last dash of a key is the one before the digits.
  lemma {:induction false} LastDash(t: seq<byte>, q: nat, i: nat)
    requires |t| < i < |Key(t, q)|
    ensures Key(t, q)[i] != DASH
  {
    assert Key(t, q)[i] == Digits(q)[i - |t| - 1];
  }

  // Queues with non-negative ids never share a key, whatever dashes their topics hold.
  lemma {:induction false} KeyInjective(t: seq<byte>, q: nat, u: seq<byte>, r: nat)
    requires Key(t, q) == Key(u, r)
    ensures t == u && q == r
  {
    var k := Key(t, q);
    assert k[|t|] == DASH && k[|u|] == DASH;
    if |t| < |u| { LastDash(t, q, |u|); }
    if |u| < |t| { LastDash(u, r, |t|); }
    assert t == k[..|t|] && u == k[..|u|];
    assert Digits(q) == k[|t| + 1..] && Digits(r) == k[|u| + 1..];
    DigitsInjective(q, r);
  }

  // A negative id reads as one more dash of the topic.
  lemma {:induction false} NegativeKey(t: seq<byte>, q: int)
    requires q < 0
    ensures Key(t, q) == Key(t + [DASH], -q)
  {
    assert t + [DASH] + ([DASH] + Digits(-q)) == t + [DASH] + [DASH] + Digits(-q);
  }

  // Two different queues share a counter exactly when one has a negative id and the other
  // the positive id and the topic with a dash behind it.
  lemma {:induction false} KeysCollideExactly(t: seq<byte>, q: int, u: seq<byte>, r: int)
    ensures Key(t, q) == Key(u, r)
       <==> (t == u && q == r) || (q < 0 && r == -q && u == t + [DASH]) || (r < 0 && q == -r && t == u + [DASH])
  {
    hide Key;
    if q < 0 { NegativeKey(t, q); }
    if r < 0 { NegativeKey(u, r); }
    var t', q' := if q < 0 then t + [DASH] else t, if q < 0 then -q else q;
    var u', r' := if r < 0 then u + [DASH] else u, if r < 0 then -r else r;
    if Key(t', q') == Key(u', r') {
      KeyInjective(t', q', u', r');
      if q < 0 && r < 0 { assert t == t'[..|t'| - 1] && u == u'[..|u'| - 1]; }
    }
  }
}
