/** The number printer `itoa` (`kernel/string.c`) and the parser it inverts. */
module Numbers {
  import opened Common

  type Int32 = x: int | -0x8000_0000 <= x < 0x8000_0000

  function Abs(x: int): nat {
    if x < 0 then -x else x
  }

  /** C's division and remainder truncate toward zero. */
  function TruncDiv(x: int, b: nat): int
    requires b > 0
  {
    if x < 0 then -(-x / b) else x / b
  }

  function TruncMod(x: int, b: nat): int
    requires b > 0
  {
    if x < 0 then -(-x % b) else x % b
  }

  function Digit(d: nat): char
    requires d < 36
  {
    if d < 10 then ('0' as int + d) as char else ('a' as int + (d - 10)) as char
  }

  /** The digits of `n`, most significant first. */
  function Digits(n: nat, b: nat): (s: string)
    requires 2 <= b <= 36
    ensures s != []
    decreases n
  {
    Quotient(n, b);
    (if n < b then [] else Digits(n / b, b)) + [Digit(n % b)]
  }

  /** What `itoa` prints: a sign in base 10 only, the empty string for a base it does not support. */
  function Itoa(value: Int32, base: int): string {
    if base < 2 || base > 36 then ""
    else (if value < 0 && base == 10 then "-" else "") + Digits(Abs(value), base)
  }

  // ----- The method

  /** Least significant digit first: the order in which the loop stores them. */
  function Stored(n: nat, b: nat): (s: string)
    requires 2 <= b <= 36
    ensures s != []
    decreases n
  {
    Quotient(n, b);
    [Digit(n % b)] + (if n < b then [] else Stored(n / b, b))
  }

  function Reverse(s: string): (r: string)
    ensures |r| == |s|
  {
    if s == [] then [] else Reverse(s[1..]) + [s[0]]
  }

  lemma {:induction false} ReverseAt(s: string, k: nat)
    requires k < |s|
    ensures Reverse(s)[k] == s[|s| - 1 - k]
  {
    if k < |s| - 1 {
      ReverseAt(s[1..], k);
    }
  }

  lemma {:induction false} StoredReversed(n: nat, b: nat)
    requires 2 <= b <= 36
    ensures Reverse(Stored(n, b)) == Digits(n, b)
    decreases n
  {
    if n >= b {
      StoredReversed(n / b, b);
      assert Stored(n, b)[1..] == Stored(n / b, b);
    } else {
      assert Stored(n, b)[1..] == [];
    }
  }

  /** Stores the text and its terminator; the rest of the buffer is not touched. */
  method Print(value: Int32, str: array<char>, base: int)
    requires |Itoa(value, base)| < str.Length
    modifies str
    ensures str[..] == Itoa(value, base) + ['\0'] + old(str[|Itoa(value, base)| + 1..])
  {
    if base < 2 || base > 36 {
      str[0] := '\0';
      return;
    }
    StoredReversed(Abs(value), base);
    ghost var sign := if value < 0 && base == 10 then "-" else "";
    ghost var digits := Stored(Abs(value), base);
    ghost var text, rest := Itoa(value, base), str[|sign + digits| + 1..];
    assert text == sign + Reverse(digits);
    PrintDigits(value, str, base, sign, digits);
    Regroup(text, ['\0'], rest);
  }

  lemma Regroup(a: string, b: string, c: string)
    ensures a + (b + c) == (a + b) + c
  {
  }

  method PrintDigits(value: Int32, str: array<char>, base: nat, ghost sign: string, ghost digits: string)
    requires 2 <= base <= 36 && sign == (if value < 0 && base == 10 then "-" else "") && digits == Stored(Abs(value), base)
    requires |sign| + |digits| < str.Length
    modifies str
    ensures str[..] == (sign + Reverse(digits)) + (['\0'] + old(str[|sign + digits| + 1..]))
  {
    ghost var before := str[..];
    var ptr1 := PutSign(value, str, base, sign);
    ghost var tail := before[ptr1..];
    var ptr := StoreDigits(value, str, base, ptr1, sign, tail);
    assert tail[ptr - ptr1..] == before[ptr..] && before[ptr..][1..] == before[ptr + 1..];
    Terminate(str, ptr, sign + digits, before[ptr..]);
    ReverseRange(str, ptr1, ptr, sign, digits, ['\0'] + before[ptr + 1..]);
  }

  method PutSign(value: Int32, str: array<char>, base: nat, ghost sign: string) returns (from: nat)
    requires sign == (if value < 0 && base == 10 then "-" else "") && |sign| < str.Length
    modifies str
    ensures from == |sign| && str[..] == sign + old(str[|sign|..])
  {
    from := 0;
    if value < 0 && base == 10 {
      str[0] := '-';
      from := 1;
    }
  }

  method Terminate(str: array<char>, at: nat, ghost head: string, ghost tail: string)
    requires str[..] == head + tail && at == |head| && tail != ""
    modifies str
    ensures str[..] == head + (['\0'] + tail[1..])
  {
    ghost var was := str[..];
    Overwrite(head, tail, '\0');
    str[at] := '\0';
    assert str[..] == was[at := '\0'];
  }

  /** What a buffer holding `head` then `tail` holds after a store at their boundary. */
  lemma Overwrite(head: string, tail: string, c: char)
    requires tail != ""
    ensures (head + tail)[|head| := c] == head + ([c] + tail[1..]) == (head + [c]) + tail[1..]
  {
  }

  /** The do-while loop: it never negates the value, so the least integer is printed like any other. */
  method StoreDigits(value: Int32, str: array<char>, base: nat, from: nat, ghost head: string, ghost tail: string)
    returns (ptr: nat)
    requires 2 <= base <= 36 && |Stored(Abs(value), base)| <= |tail|
    requires str[..] == head + tail && from == |head|
    modifies str
    ensures ptr == from + |Stored(Abs(value), base)|
    ensures str[..] == (head + Stored(Abs(value), base)) + tail[ptr - from..]
  {
    ghost var all := Stored(Abs(value), base);
    ghost var text, left := "", all;
    ptr := from;
    var tmp: int := value;
    HalfwayStart(head, tail, all);
    while true
      invariant left == Stored(Abs(tmp), base) && ptr == from + |text|
      invariant Halfway(str[..], head, text, tail, left, all)
      decreases Abs(tmp)
    {
      var rem := TruncMod(tmp, base);
      if rem < 0 {
        rem := -rem;
      }
      StoredStep(tmp, base);
      HalfwayStep(str[..], head, text, tail, left, all);
      ghost var now := str[..];
      str[ptr] := Digit(rem);
      assert str[..] == now[ptr := left[0]];
      ptr := ptr + 1;
      text, left := text + [left[0]], left[1..];
      tmp := TruncDiv(tmp, base);
      if tmp == 0 {
        break;
      }
    }
    HalfwayEnd(str[..], head, text, tail, all);
  }

  /** `text` of the digits `all` is stored behind `head`, `left` is still to come. */
  ghost predicate Halfway(now: string, head: string, text: string, tail: string, left: string, all: string) {
    text + left == all && |all| <= |tail| && now == (head + text) + tail[|text|..]
  }

  lemma HalfwayStart(head: string, tail: string, all: string)
    requires |all| <= |tail|
    ensures Halfway(head + tail, head, "", tail, all, all)
  {
    assert head + "" == head && "" + all == all;
  }

  lemma HalfwayStep(now: string, head: string, text: string, tail: string, left: string, all: string)
    requires Halfway(now, head, text, tail, left, all) && left != ""
    ensures |head + text| < |now|
    ensures Halfway(now[|head + text| := left[0]], head, text + [left[0]], tail, left[1..], all)
  {
    Overwrite(head + text, tail[|text|..], left[0]);
    assert text + left == (text + [left[0]]) + left[1..];
    assert (head + text) + [left[0]] == head + (text + [left[0]]);
    assert tail[|text|..][1..] == tail[|text| + 1..];
  }

  lemma HalfwayEnd(now: string, head: string, text: string, tail: string, all: string)
    requires Halfway(now, head, text, tail, "", all)
    ensures text == all && now == (head + all) + tail[|all|..]
  {
    assert text + "" == text;
  }

  lemma StoredStep(x: int, b: nat)
    requires 2 <= b <= 36
    ensures Abs(TruncMod(x, b)) == Abs(x) % b < b
    ensures Stored(Abs(x), b)[0] == Digit(Abs(TruncMod(x, b)))
    ensures Stored(Abs(x), b)[1..] == if TruncDiv(x, b) == 0 then "" else Stored(Abs(TruncDiv(x, b)), b)
    ensures TruncDiv(x, b) != 0 ==> Abs(TruncDiv(x, b)) < Abs(x)
  {
    TruncMagnitude(x, b);
    Quotient(Abs(x), b);
  }

  lemma TruncMagnitude(x: int, b: nat)
    requires b >= 2
    ensures Abs(TruncMod(x, b)) == Abs(x) % b && Abs(TruncDiv(x, b)) == Abs(x) / b
  {
    Quotient(Abs(x), b);
  }

  lemma Quotient(n: nat, b: nat)
    requires b >= 2
    ensures 0 <= n % b < b && 0 <= n / b
    ensures n < b ==> n / b == 0 && n % b == n
    ensures n >= b ==> 0 < n / b < n
  {
    var q, r := n / b, n % b;
    assert n == b * q + r;
    if q > 0 {
      assert b * q >= 2 * q by { TwiceAtLeast(b, q); }
    }
  }

  lemma TwiceAtLeast(b: nat, q: nat)
    requires b >= 2
    ensures b * q >= 2 * q
  {
  }

  /** The exchange loop at the end of `itoa`, over the characters `from..to`. */
  method ReverseRange(str: array<char>, from: nat, to: nat, ghost head: string, ghost body: string, ghost tail: string)
    requires body != "" && str[..] == (head + body) + tail && from == |head| && to == |head + body|
    modifies str
    ensures str[..] == (head + Reverse(body)) + tail
  {
    ghost var was := str[..];
    var lo, hi := from, to - 1;
    while lo < hi
      invariant from <= lo && hi < to && lo + hi == from + to - 1 && lo <= hi + 1
      invariant Mirrored(was, str[..], from, to, lo, hi)
    {
      ghost var now := str[..];
      MirroredStep(was, now, from, to, lo, hi);
      str[lo], str[hi] := str[hi], str[lo];
      assert str[..] == now[lo := now[hi]][hi := now[lo]];
      lo, hi := lo + 1, hi - 1;
    }
    MirroredAll(was, str[..], from, to, lo, hi);
    Joined(was, str[..], head, body, tail);
  }

  lemma Joined(was: string, now: string, head: string, body: string, tail: string)
    requires was == (head + body) + tail && |now| == |was|
    requires var from, to := |head|, |head + body|;
      now[..from] == was[..from] && now[to..] == was[to..] && now[from..to] == Reverse(was[from..to])
    ensures now == (head + Reverse(body)) + tail
  {
    var from, to := |head|, |head + body|;
    assert was[..from] == head && was[from..to] == body && was[to..] == tail;
    assert now == (now[..from] + now[from..to]) + now[to..];
  }

  /** The outer parts `from..lo` and `hi+1..to` have been exchanged. */
  ghost predicate Mirrored(was: string, now: string, from: nat, to: nat, lo: int, hi: int) {
    && |was| == |now| && from < to <= |was|
    && (forall k :: from <= k < lo || hi < k < to ==> 0 <= from + to - 1 - k < |was| && 0 <= k < |now| && now[k] == was[from + to - 1 - k])
    && (forall k :: 0 <= k < from || lo <= k <= hi || to <= k < |was| ==> 0 <= k < |was| && now[k] == was[k])
  }

  lemma MirroredStep(was: string, now: string, from: nat, to: nat, lo: nat, hi: nat)
    requires Mirrored(was, now, from, to, lo, hi) && from <= lo < hi < to && lo + hi == from + to - 1
    ensures Mirrored(was, now[lo := now[hi]][hi := now[lo]], from, to, lo + 1, hi - 1)
  {
  }

  lemma MirroredAll(was: string, now: string, from: nat, to: nat, lo: int, hi: int)
    requires Mirrored(was, now, from, to, lo, hi) && from <= lo <= hi + 1 <= to && lo + hi == from + to - 1 && lo >= hi
    ensures now[..from] == was[..from] && now[to..] == was[to..] && now[from..to] == Reverse(was[from..to])
  {
    var a, b := now[from..to], Reverse(was[from..to]);
    forall k | 0 <= k < to - from ensures a[k] == b[k] {
      ReverseAt(was[from..to], k);
      assert now[from + k] == was[to - 1 - k];
    }
  }

  // ----- Reading the text back

  function DigitValue(c: char): nat {
    if '0' <= c <= '9' then c as int - '0' as int
    else if 'a' <= c <= 'z' then c as int - 'a' as int + 10
    else if 'A' <= c <= 'Z' then c as int - 'A' as int + 10
    else 36
  }

  /** The value of a digit string. */
  function ParseDigits(s: string, b: nat): int {
    if s == [] then 0 else b * ParseDigits(s[..|s| - 1], b) + DigitValue(s[|s| - 1])
  }

  predicate IsNumber(s: string, b: nat) {
    s != "" && forall i :: 0 <= i < |s| ==> DigitValue(s[i]) < b
  }

  function Parse(s: string, b: nat): Option<int> {
    if IsNumber(s, b) then Some(ParseDigits(s, b))
    else if s != "" && s[0] == '-' && IsNumber(s[1..], b) then Some(-ParseDigits(s[1..], b))
    else None
  }

  lemma {:induction false} DigitsAreNumber(n: nat, b: nat)
    requires 2 <= b <= 36
    ensures IsNumber(Digits(n, b), b)
    decreases n
  {
    Quotient(n, b);
    DigitBack(n % b);
    if n >= b {
      DigitsAreNumber(n / b, b);
    }
  }

  lemma {:induction false} DigitsParse(n: nat, b: nat)
    requires 2 <= b <= 36
    ensures ParseDigits(Digits(n, b), b) == n
    decreases n
  {
    var q, r := n / b, n % b;
    assert r < b && (n < b ==> n == r) && (n >= b ==> q < n) by { Quotient(n, b); }
    DigitBack(r);
    if n < b {
      ParseLast("", Digit(r), b);
      assert "" + [Digit(r)] == [Digit(r)];
    } else {
      DigitsParse(q, b);
      ParseLast(Digits(q, b), Digit(r), b);
      Recompose(n, b, ParseDigits(Digits(q, b), b));
    }
  }

  lemma Recompose(n: nat, b: nat, q: int)
    requires b > 0 && q == n / b
    ensures b * q + n % b == n
  {
  }

  lemma ParseLast(s: string, c: char, b: nat)
    ensures ParseDigits(s + [c], b) == b * ParseDigits(s, b) + DigitValue(c)
  {
    assert (s + [c])[..|s|] == s;
  }

  lemma DigitBack(d: nat)
    requires d < 36
    ensures DigitValue(Digit(d)) == d && (Digit(d) == '0' <==> d == 0)
  {
  }

  /** Parsing what `itoa` prints gives back the value in base 10 and its magnitude in every other base;
      the least 32-bit integer is no exception. */
  lemma RoundTrip(value: Int32, base: nat)
    requires 2 <= base <= 36
    ensures Parse(Itoa(value, base), base) == Some(if base == 10 then value else Abs(value))
  {
    DigitsAreNumber(Abs(value), base);
    DigitsParse(Abs(value), base);
    var s := Itoa(value, base);
    if value < 0 && base == 10 {
      assert s[1..] == Digits(Abs(value), base) && DigitValue(s[0]) == 36;
    } else {
      assert s == Digits(Abs(value), base);
    }
  }

  /** Different values print differently in base 10. */
  lemma PrintsInjectively(v: Int32, w: Int32)
    requires Itoa(v, 10) == Itoa(w, 10)
    ensures v == w
  {
    RoundTrip(v, 10);
    RoundTrip(w, 10);
  }

  /** No leading zeros: only zero itself starts with one. */
  lemma {:induction false} Canonical(n: nat, b: nat)
    requires 2 <= b <= 36
    ensures Digits(n, b)[0] == '0' <==> n == 0
    ensures n == 0 ==> Digits(n, b) == "0"
    decreases n
  {
    Quotient(n, b);
    DigitBack(n % b);
    if n >= b {
      Canonical(n / b, b);
    }
  }

  // ----- The digits themselves

  const DIGITS := "0123456789abcdefghijklmnopqrstuvwxyz"

  lemma DigitTable(d: nat)
    requires d < 36
    ensures Digit(d) == DIGITS[d] && DigitValue(DIGITS[d]) == d
  {
  }

  /** The last digit is the remainder and those before it are the quotient's. */
  lemma DigitsMeaning(n: nat, b: nat)
    requires 2 <= b <= 36
    ensures n / b >= 0 && 0 <= n % b < 36
    ensures Digits(n, b) == if n < b then [DIGITS[n % b]] else Digits(n / b, b) + [DIGITS[n % b]]
  {
    Quotient(n, b);
    DigitTable(n % b);
  }

  /** A minus sign stands before negative values in base 10, and nowhere else. */
  lemma SignExactly(value: Int32, base: nat)
    requires 2 <= base <= 36
    ensures Itoa(value, base) != "" && (Itoa(value, base)[0] == '-' <==> value < 0 && base == 10)
    ensures forall i :: 1 <= i < |Itoa(value, base)| ==> Itoa(value, base)[i] in DIGITS
  {
    DigitsAreDigits(Abs(value), base);
  }

  lemma {:induction false} DigitsAreDigits(n: nat, b: nat)
    requires 2 <= b <= 36
    ensures forall i :: 0 <= i < |Digits(n, b)| ==> Digits(n, b)[i] in DIGITS
    decreases n
  {
    DigitsMeaning(n, b);
    Quotient(n, b);
    if n >= b {
      DigitsAreDigits(n / b, b);
    }
  }

  /** -407 in base 10, and -255 in base 16, where the sign is lost. */
  lemma PrintedDecimal()
    ensures Itoa(-407, 10) == "-407"
  {
    DigitsMeaning(407, 10);
    DigitsMeaning(40, 10);
    DigitsMeaning(4, 10);
    assert Digits(407, 10) == "4" + "0" + "7";
  }

  lemma PrintedHex()
    ensures Itoa(-255, 16) == "ff"
  {
    DigitsMeaning(255, 16);
    DigitsMeaning(15, 16);
  }

  // ----- Buffer sizes

  function Power(b: nat, k: nat): nat {
    if k == 0 then 1 else b * Power(b, k - 1)
  }

  lemma {:induction false} DigitCount(n: nat, b: nat, k: nat)
    requires 2 <= b <= 36 && k > 0 && n < Power(b, k)
    ensures |Digits(n, b)| <= k
    decreases k
  {
    Quotient(n, b);
    if n >= b {
      if k > 1 {
        var p := Power(b, k - 1);
        if n / b >= p {
          AtLeastProduct(n, b, p);
        }
        DigitCount(n / b, b, k - 1);
      }
    }
  }

  lemma AtLeastProduct(n: nat, b: nat, p: nat)
    requires b > 0 && n / b >= p
    ensures n >= b * p
  {
    var q := n / b;
    assert n == b * q + n % b;
    assert b * q == b * p + b * (q - p);
  }

  /** The formatter's buffers: 12 characters for decimal and 9 for hexadecimal, terminator included. */
  lemma FitsBuffers(value: Int32)
    ensures |Itoa(value, 10)| + 1 <= 12
    ensures |Itoa(value, 16)| + 1 <= 9
  {
    assert Power(10, 5) == 100000;
    assert Power(10, 10) == 10000000000;
    DigitCount(Abs(value), 10, 10);
    assert Power(16, 4) == 0x1_0000;
    assert Power(16, 8) == 0x1_0000_0000;
    DigitCount(Abs(value), 16, 8);
  }
}
