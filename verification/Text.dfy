/** Splitting, joining and decimal text, as Go's strings and strconv packages do it. */
module Text {
  import opened Common

  // ---------------------------------------------------------------- split and join

  function IndexOf(s: string, c: char): (i: nat)
    ensures i <= |s|
    ensures i < |s| ==> s[i] == c
    ensures forall j :: 0 <= j < i ==> s[j] != c
  {
    if s == "" || s[0] == c then 0 else 1 + IndexOf(s[1..], c)
  }

  /** strings.Split(s, sep) for a one-character separator. */
  function Split(s: string, sep: char): seq<string>
    decreases |s|
  {
    var i := IndexOf(s, sep);
    if i == |s| then [s] else [s[..i]] + Split(s[i + 1..], sep)
  }

  /** strings.SplitN(s, sep, 2): the text before and after the first separator; None when there is none. */
  function Cut(s: string, sep: char): Option<(string, string)> {
    var i := IndexOf(s, sep);
    if i == |s| then None else Some((s[..i], s[i + 1..]))
  }

  function Join(parts: seq<string>, sep: char): string
    requires parts != []
  {
    if |parts| == 1 then parts[0] else parts[0] + [sep] + Join(parts[1..], sep)
  }

  lemma {:induction false} IndexAt(s: string, c: char, i: nat)
    requires i <= |s| && (forall j :: 0 <= j < i ==> s[j] != c) && (i < |s| ==> s[i] == c)
    ensures IndexOf(s, c) == i
  {
    var n := IndexOf(s, c);
    assert n >= i;
  }

  lemma {:induction false} SplitFirst(head: string, sep: char, tail: string)
    requires sep !in head
    ensures Split(head + [sep] + tail, sep) == [head] + Split(tail, sep)
    ensures Split(head, sep) == [head]
  {
    var s := head + [sep] + tail;
    IndexAt(s, sep, |head|);
    IndexAt(head, sep, |head|);
    assert s[..|head|] == head && s[|head| + 1..] == tail;
  }

  /** Splitting undoes joining, for parts without the separator. */
  lemma {:induction false} SplitJoin(parts: seq<string>, sep: char)
    requires parts != [] && forall i :: 0 <= i < |parts| ==> sep !in parts[i]
    ensures Split(Join(parts, sep), sep) == parts
  {
    if |parts| > 1 {
      SplitFirst(parts[0], sep, Join(parts[1..], sep));
      SplitJoin(parts[1..], sep);
    } else {
      SplitFirst(parts[0], sep, "");
    }
  }

  /** Joining undoes splitting, and no part holds the separator. */
  lemma {:induction false} JoinSplit(s: string, sep: char)
    ensures Split(s, sep) != [] && Join(Split(s, sep), sep) == s
    ensures forall i :: 0 <= i < |Split(s, sep)| ==> sep !in Split(s, sep)[i]
    decreases |s|
  {
    var i := IndexOf(s, sep);
    if i < |s| {
      JoinSplit(s[i + 1..], sep);
      assert Split(s, sep)[1..] == Split(s[i + 1..], sep);
      assert s == s[..i] + [sep] + s[i + 1..];
    }
  }

  // ---------------------------------------------------------------- decimal

  const UINT32_LIMIT := 0x1_0000_0000
  const INT64_LIMIT := 0x8000_0000_0000_0000

  predicate IsDigit(c: char) { '0' <= c <= '9' }

  function FormatNat(n: nat): string {
    var digit := '0' + (n % 10) as char;
    if n < 10 then [digit] else FormatNat(n / 10) + [digit]
  }

  /** strconv.FormatInt(n, 10), and the %d verb. */
  function FormatInt(n: int): string {
    if n < 0 then "-" + FormatNat(-n) else FormatNat(n)
  }

  /** The value of a string of digits; None when a character is not a digit. */
  function DigitsValue(s: string): Option<nat> {
    if s == "" then Some(0) else
      var last := s[|s| - 1];
      match DigitsValue(s[..|s| - 1])
      case Some(v) => if IsDigit(last) then Some(10 * v + (last as int - '0' as int)) else None
      case None => None
  }

  /** strconv.ParseUint(s, 10, 32) */
  function ParseUint32(s: string): Option<nat> {
    match DigitsValue(s)
    case Some(v) => if s == "" || v >= UINT32_LIMIT then None else Some(v)
    case None => None
  }

  /** strconv.ParseInt(s, 10, 64): an optional sign, at least one digit, and a value that fits 64 bits. */
  function ParseInt64(s: string): Option<int> {
    var negative := s != "" && s[0] == '-';
    var digits := if s != "" && (s[0] == '-' || s[0] == '+') then s[1..] else s;
    match DigitsValue(digits)
    case None => None
    case Some(magnitude) =>
      var m: int := magnitude;
      var value := if negative then -m else m;
      if digits == "" || value < -INT64_LIMIT || value >= INT64_LIMIT then None else Some(value)
  }

  lemma {:induction false} DigitsRoundTrip(n: nat)
    ensures FormatNat(n) != "" && DigitsValue(FormatNat(n)) == Some(n)
    ensures forall i :: 0 <= i < |FormatNat(n)| ==> IsDigit(FormatNat(n)[i])
  {
    if n >= 10 {
      DigitsRoundTrip(n / 10);
      assert FormatNat(n)[..|FormatNat(n)| - 1] == FormatNat(n / 10);
    } else {
      assert FormatNat(n)[..0] == "";
    }
  }

  /** Every 32-bit number survives printing and parsing. */
  lemma {:induction false} Uint32RoundTrip(n: nat)
    ensures ParseUint32(FormatInt(n)) == if n < UINT32_LIMIT then Some(n) else None
  {
    DigitsRoundTrip(n);
  }

  /** Every signed 64-bit number survives printing and parsing; no other number does. */
  lemma {:induction false} Int64RoundTrip(n: int)
    ensures ParseInt64(FormatInt(n)) == if -INT64_LIMIT <= n < INT64_LIMIT then Some(n) else None
  {
    DigitsRoundTrip(if n < 0 then -n else n);
    if n < 0 {
      assert FormatInt(n)[1..] == FormatNat(-n);
    } else {
      assert IsDigit(FormatInt(n)[0]);
    }
  }

  function PowerOfTen(n: nat): nat { if n == 0 then 1 else 10 * PowerOfTen(n - 1) }

  /** Digits count by their place: one digit for itself, and any front for the power of ten of what follows. */
  lemma {:induction false} DigitsByPlace(a: string, b: string)
    ensures |a| == 1 ==> DigitsValue(a) == if '0' <= a[0] <= '9' then Some(a[0] as int - 48) else None
    ensures DigitsValue(a + b) ==
            match (DigitsValue(a), DigitsValue(b)) {
              case (Some(v), Some(w)) => Some(v * PowerOfTen(|b|) + w)
              case _ => None
            }
    decreases |b|
  {
    if |a| == 1 {
      assert a[..0] == "";
    }
    if b == "" {
      assert a + b == a;
    } else {
      var front := b[..|b| - 1];
      DigitsByPlace(a, front);
      assert (a + b)[..|a + b| - 1] == a + front;
      match (DigitsValue(a), DigitsValue(front)) {
        case (Some(v), Some(w)) => Shifted(v, PowerOfTen(|front|), w);
        case _ =>
      }
    }
  }

  lemma {:induction false} Shifted(v: nat, p: nat, w: nat)
    ensures 10 * (v * p + w) == v * (10 * p) + 10 * w
  {
  }

  /** The printed digits are the only ones with that value and without a leading zero. */
  lemma {:induction false} OnePrinting(s: string)
    requires s != "" && DigitsValue(s).Some?
    ensures FormatNat(DigitsValue(s).value) == s <==> |s| == 1 || s[0] != '0'
  {
    var n := |s| - 1;
    var front := s[..n];
    if n > 0 {
      OnePrinting(front);
      var v := DigitsValue(front).value;
      assert s == front + [s[n]] && front[0] == s[0];
      var value := DigitsValue(s).value;
      assert value / 10 == v && value % 10 == s[n] as int - '0' as int;
      if v > 0 {
        assert FormatNat(value) == FormatNat(v) + [s[n]];
      } else {
        LeadingZero(front);
      }
    } else {
      assert front == "";
    }
  }

  lemma {:induction false} LeadingZero(s: string)
    requires s != "" && DigitsValue(s) == Some(0)
    ensures s[0] == '0'
  {
    if |s| > 1 {
      LeadingZero(s[..|s| - 1]);
    }
  }
}
