/** Byte strings as text: splitting, decimal numbers, and the characters the HTTP readers look for. */
module Text {
  import opened Bytes
  import opened Wrappers

  const LF: Byte := 10
  const CR: Byte := 13
  const SP: Byte := 32
  const COLON: Byte := 58
  const OPEN: Byte := 91
  const CLOSE: Byte := 93

  function Ascii(s: string): seq<Byte>
    requires forall k :: 0 <= k < |s| ==> s[k] as int < 0x80
  {
    seq(|s|, k requires 0 <= k < |s| => s[k] as int)
  }

  /** `split_once`: the bytes before and after the first occurrence. */
  function SplitOnce(s: seq<Byte>, b: Byte): (r: Option<(seq<Byte>, seq<Byte>)>)
    ensures r.None? <==> b !in s
    ensures r.Some? ==> s == r.value.0 + [b] + r.value.1 && b !in r.value.0
  {
    if s == [] then None
    else if s[0] == b then Some(([], s[1..]))
    else
      match SplitOnce(s[1..], b)
      case None => None
      case Some((front, back)) => Some(([s[0]] + front, back))
  }

  lemma {:induction false} SplitAtFirst(front: seq<Byte>, b: Byte, back: seq<Byte>)
    requires b !in front
    ensures SplitOnce(front + [b] + back, b) == Some((front, back))
  {
    var s := front + [b] + back;
    if front == [] {
      assert s[1..] == back;
    } else {
      assert s[1..] == front[1..] + [b] + back;
      assert front == [s[0]] + front[1..] && s[0] != b;
      SplitAtFirst(front[1..], b, back);
    }
  }

  /** `rsplit_once`: the bytes before and after the last occurrence. */
  function SplitLast(s: seq<Byte>, b: Byte): (r: Option<(seq<Byte>, seq<Byte>)>)
    ensures r.None? <==> b !in s
    ensures r.Some? ==> s == r.value.0 + [b] + r.value.1 && b !in r.value.1
    decreases |s|
  {
    if s == [] then None
    else if s[|s| - 1] == b then Some((s[..|s| - 1], []))
    else
      match SplitLast(s[..|s| - 1], b)
      case None => None
      case Some((front, back)) => Some((front, back + [s[|s| - 1]]))
  }

  lemma {:induction false} SplitAtLast(front: seq<Byte>, b: Byte, back: seq<Byte>)
    requires b !in back
    ensures SplitLast(front + [b] + back, b) == Some((front, back))
    decreases |back|
  {
    var s := front + [b] + back;
    if back == [] {
      assert s[..|s| - 1] == front;
    } else {
      assert s[..|s| - 1] == front + [b] + back[..|back| - 1];
      assert back == back[..|back| - 1] + [s[|s| - 1]] && s[|s| - 1] != b;
      SplitAtLast(front, b, back[..|back| - 1]);
    }
  }

  /** A number in decimal digits. */
  function Decimal(n: nat): (s: seq<Byte>)
    ensures |s| >= 1 && forall k :: 0 <= k < |s| ==> 48 <= s[k] <= 57
  {
    if n < 10 then [48 + n] else Decimal(n / 10) + [48 + n % 10]
  }

  function ParseDecimal(s: seq<Byte>): Option<nat>
    decreases |s|
  {
    if s == [] || !(48 <= s[|s| - 1] <= 57) then None
    else if |s| == 1 then Some(s[0] - 48)
    else
      var front :- ParseDecimal(s[..|s| - 1]);
      Some(10 * front + (s[|s| - 1] - 48))
  }

  lemma {:induction false} DecimalRoundTrip(n: nat)
    ensures ParseDecimal(Decimal(n)) == Some(n)
  {
    if n >= 10 {
      DecimalRoundTrip(n / 10);
      assert Decimal(n)[..|Decimal(n)| - 1] == Decimal(n / 10);
    }
  }
}
