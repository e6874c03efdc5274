/** The kernel log's formatter `vsnprintf` (`kernel/log.c`). */
module Formatter {
  import opened Bits
  import opened Common
  import opened CStrings
  import opened Numbers

  datatype Arg = Int(i: Int32) | Uint(u: Word) | Str(s: Option<CString>) | Chr(c: char)

  /** The conversion of an `unsigned int` passed where `itoa` takes an `int`. */
  function ToSigned(u: Word): Int32 {
    if u < 0x8000_0000 then u else u - TWO_TO_32
  }

  function Upper(c: char): char {
    if 'a' <= c <= 'f' then (c as int - 'a' as int + 'A' as int) as char else c
  }

  function UpperAll(s: string): string {
    seq(|s|, i requires 0 <= i < |s| => Upper(s[i]))
  }

  // ----- The full rendering

  predicate TakesArgument(spec: char) {
    spec in {'d', 'u', 'x', 'X', 's', 'c'}
  }

  predicate Fits(spec: char, arg: Arg) {
    match spec
    case 'd' => arg.Int?
    case 'u' | 'x' | 'X' => arg.Uint?
    case 's' => arg.Str?
    case 'c' => arg.Chr?
    case _ => false
  }

  /** What a conversion that takes an argument prints. */
  function Convert(spec: char, arg: Arg): string
    requires Fits(spec, arg)
  {
    match arg
    case Int(i) => Itoa(i, 10)
    case Uint(u) =>
      if spec == 'u' then Itoa(ToSigned(u), 10)
      else if spec == 'x' then Itoa(ToSigned(u), 16)
      else UpperAll(Itoa(ToSigned(u), 16))
    case Str(s) => if s.None? then "(null)" else s.value
    case Chr(c) => [c]
  }

  /** The arguments from `a` on suit the format from `p` on. */
  predicate Matching(format: CString, p: nat, args: seq<Arg>, a: nat)
    requires p <= |format| && a <= |args|
    decreases |format| - p
  {
    if p == |format| || (format[p] == '%' && p + 1 == |format|) then true
    else if format[p] != '%' then Matching(format, p + 1, args, a)
    else if TakesArgument(format[p + 1]) then
      a < |args| && Fits(format[p + 1], args[a]) && Matching(format, p + 2, args, a + 1)
    else Matching(format, p + 2, args, a)
  }

  /** The text the format stands for, with no limit on its length: an unknown conversion stands for
      itself and a lone `%` at the end for nothing. */
  function Render(format: CString, p: nat, args: seq<Arg>, a: nat): string
    requires p <= |format| && a <= |args| && Matching(format, p, args, a)
    decreases |format| - p
  {
    if p == |format| || (format[p] == '%' && p + 1 == |format|) then ""
    else if format[p] != '%' then [format[p]] + Render(format, p + 1, args, a)
    else if TakesArgument(format[p + 1]) then
      Convert(format[p + 1], args[a]) + Render(format, p + 2, args, a + 1)
    else Literal(format[p + 1]) + Render(format, p + 2, args, a)
  }

  function Literal(spec: char): string {
    if spec == '%' then "%" else ['%', spec]
  }

  // ----- Writing under a limit

  /** `full` is written as far as it goes: all but `rest`, or the first `limit` characters. */
  ghost predicate Progress(written: string, full: string, rest: string, limit: nat) {
    |written| <= limit && (full == written + rest || (|written| == limit && written <= full))
  }

  /** Writing the next piece, cut at the limit, keeps the progress. */
  lemma PieceWritten(written: string, full: string, piece: string, rest: string, limit: nat, n: nat)
    requires Progress(written, full, piece + rest, limit) && |written| < limit
    requires n == if |written| + |piece| <= limit then |piece| else limit - |written|
    ensures Progress(written + piece[..n], full, rest, limit)
  {
    if n == |piece| {
      assert piece[..n] == piece && written + (piece + rest) == (written + piece) + rest;
    } else {
      assert full == written + (piece[..n] + (piece[n..] + rest));
      assert full[..limit] == written + piece[..n];
    }
  }

  lemma PrefixGrows(head: string, piece: string, s: nat)
    requires s < |piece|
    ensures (head + piece[..s]) + [piece[s]] == head + piece[..s + 1]
  {
  }

  /** The copy loops of the conversions: up to the source's NUL, while there is room. */
  method CopyText(buf: array<char>, i: nat, limit: nat, source: seq<char>, ghost text: CString, upper: bool) returns (j: nat)
    requires i <= limit < buf.Length && Holds(source, text)
    modifies buf
    ensures j == i + Min(|text|, limit - i)
    ensures buf[..j] == old(buf[..i]) + (if upper then UpperAll(text) else text)[..j - i]
    ensures buf[j..] == old(buf[j..])
  {
    ghost var piece := if upper then UpperAll(text) else text;
    j := i;
    var s := 0;
    assert forall k :: 0 <= k < |text| ==> source[..|text|][k] == source[k] == text[k];
    while source[s] != '\0' && j < limit
      invariant s <= |text| && j == i + s <= limit
      invariant buf[..j] == old(buf[..i]) + piece[..s]
      invariant forall k :: j <= k < buf.Length ==> buf[k] == old(buf[k])
      decreases |text| - s
    {
      ghost var before := buf[..j];
      buf[j] := if upper then Upper(source[s]) else source[s];
      j, s := j + 1, s + 1;
      assert buf[..j] == before + [piece[s - 1]];
      PrefixGrows(old(buf[..i]), piece, s - 1);
    }
  }

  /** `itoa` into a local buffer, then the copy loop. */
  method CopyNumber(buf: array<char>, i: nat, limit: nat, value: Int32, base: nat, upper: bool) returns (j: nat)
    requires i <= limit < buf.Length && (base == 10 || base == 16)
    modifies buf
    ensures j == i + Min(|Itoa(value, base)|, limit - i)
    ensures buf[..j] == old(buf[..i]) + (if upper then UpperAll(Itoa(value, base)) else Itoa(value, base))[..j - i]
    ensures buf[j..] == old(buf[j..])
  {
    NumberIsText(value, base);
    var numStr := NumberText(value, base);
    j := CopyText(buf, i, limit, numStr[..], Itoa(value, base), upper);
  }

  /** The local buffer of a conversion. */
  method NumberText(value: Int32, base: nat) returns (numStr: array<char>)
    requires base == 10 || base == 16
    ensures fresh(numStr) && IsText(Itoa(value, base)) && Holds(numStr[..], Itoa(value, base))
  {
    FitsBuffers(value);
    NumberIsText(value, base);
    numStr := new char[if base == 10 then 12 else 9](_ => '\0');
    Print(value, numStr, base);
    PrintedHolds(numStr[..], Itoa(value, base), numStr[|Itoa(value, base)| + 1..]);
  }

  predicate IsText(s: string) {
    forall k :: 0 <= k < |s| ==> s[k] != '\0'
  }

  lemma NumberIsText(value: Int32, base: nat)
    requires 2 <= base <= 36
    ensures IsText(Itoa(value, base))
  {
    DigitsAreNumber(Abs(value), base);
  }

  lemma PrintedHolds(buf: string, text: CString, rest: string)
    requires buf == text + ['\0'] + rest
    ensures Holds(buf, text)
  {
  }

  /** The cases of the switch that take an argument. */
  method WriteConversion(buf: array<char>, i: nat, limit: nat, spec: char, arg: Arg) returns (j: nat)
    requires i < limit < buf.Length && Fits(spec, arg)
    modifies buf
    ensures j == i + Min(|Convert(spec, arg)|, limit - i)
    ensures buf[..j] == old(buf[..i]) + Convert(spec, arg)[..j - i]
    ensures buf[j..] == old(buf[j..])
  {
    match arg
    case Int(v) =>
      j := CopyNumber(buf, i, limit, v, 10, false);
    case Uint(u) =>
      if spec == 'u' {
        j := CopyNumber(buf, i, limit, ToSigned(u), 10, false);
      } else {
        j := CopyNumber(buf, i, limit, ToSigned(u), 16, spec == 'X');
      }
    case Str(s) =>
      var text: CString := if s.None? then "(null)" else s.value;
      j := CopyText(buf, i, limit, text + ['\0'], text, false);
    case Chr(c) =>
      ghost var before := buf[..i];
      buf[i] := c;
      j := i + 1;
      assert buf[..j] == before + [c];
  }

  /** The two cases that take none: `%%`, and an unknown conversion, copied as it stands. */
  method WriteLiteral(buf: array<char>, i: nat, limit: nat, spec: char) returns (j: nat)
    requires i < limit < buf.Length
    modifies buf
    ensures j == i + Min(|Literal(spec)|, limit - i)
    ensures buf[..j] == old(buf[..i]) + Literal(spec)[..j - i]
    ensures buf[j..] == old(buf[j..])
  {
    ghost var before := buf[..i];
    buf[i] := '%';
    j := i + 1;
    assert buf[..j] == before + ['%'];
    if spec != '%' && j < limit {
      buf[j] := spec;
      j := j + 1;
      assert buf[..j] == before + ['%', spec];
    }
  }

  function PieceOf(spec: char, args: seq<Arg>, a: nat): string
    requires TakesArgument(spec) ==> a < |args| && Fits(spec, args[a])
  {
    if TakesArgument(spec) then Convert(spec, args[a]) else Literal(spec)
  }

  /** One conversion; `next` is the argument to use after it. */
  method WriteSpec(buf: array<char>, i: nat, limit: nat, spec: char, args: seq<Arg>, a: nat) returns (j: nat, next: nat)
    requires i < limit < buf.Length && (TakesArgument(spec) ==> a < |args| && Fits(spec, args[a]))
    modifies buf
    ensures next == if TakesArgument(spec) then a + 1 else a
    ensures j == i + Min(|PieceOf(spec, args, a)|, limit - i)
    ensures buf[..j] == old(buf[..i]) + PieceOf(spec, args, a)[..j - i]
    ensures buf[j..] == old(buf[j..])
  {
    if TakesArgument(spec) {
      j := WriteConversion(buf, i, limit, spec, args[a]);
      next := a + 1;
    } else {
      j := WriteLiteral(buf, i, limit, spec);
      next := a;
    }
  }

  /** Writes the full rendering as far as the buffer goes, ends it with a NUL, touches nothing behind
      it and returns the number of characters written. */
  method Vsnprintf(buf: array?<char>, size: nat, format: CString, args: seq<Arg>) returns (n: nat)
    requires Matching(format, 0, args, 0) && (buf != null ==> size <= buf.Length)
    modifies buf
    ensures buf == null || size == 0 ==> n == 0
    ensures buf != null && size == 0 ==> buf[..] == old(buf[..])
    ensures buf != null && size > 0 ==>
      var full := Render(format, 0, args, 0);
      && n == Min(|full|, size - 1)
      && buf[..] == (full[..n] + ['\0']) + old(buf[n + 1..])
  {
    if buf == null || size == 0 {
      return 0;
    }
    n := Fill(buf, size - 1, format, args);
    ghost var text := buf[..n];
    buf[n] := '\0';
    assert buf[..n] == text;
    assert buf[..] == (buf[..n] + [buf[n]]) + buf[n + 1..];
  }

  /** The scanning loop. */
  method Fill(buf: array<char>, limit: nat, format: CString, args: seq<Arg>) returns (i: nat)
    requires limit < buf.Length && Matching(format, 0, args, 0)
    modifies buf
    ensures var full := Render(format, 0, args, 0);
      i == Min(|full|, limit) && buf[..i] == full[..i]
    ensures buf[i..] == old(buf[i..])
  {
    ghost var full := Render(format, 0, args, 0);
    i := 0;
    var p: nat, a: nat := 0, 0;
    assert "" + full == full;
    while p < |format| && i < limit
      invariant p <= |format| && a <= |args| && i <= limit && Matching(format, p, args, a)
      invariant Progress(buf[..i], full, Render(format, p, args, a), limit)
      invariant buf[i..] == old(buf[i..])
      decreases |format| - p
    {
      i, p, a := Advance(buf, i, limit, format, p, args, a, full);
    }
    ProgressEnds(buf[..i], full, Render(format, p, args, a), limit);
  }

  /** One round of the scanning loop: a plain character, a conversion, or the lone `%` at the end. */
  method Advance(buf: array<char>, i: nat, limit: nat, format: CString, p: nat, args: seq<Arg>, a: nat, ghost full: string)
    returns (j: nat, q: nat, b: nat)
    requires i < limit < buf.Length && p < |format| && a <= |args| && Matching(format, p, args, a)
    requires Progress(buf[..i], full, Render(format, p, args, a), limit)
    modifies buf
    ensures p < q <= |format| && b <= |args| && i <= j <= limit && Matching(format, q, args, b)
    ensures Progress(buf[..j], full, Render(format, q, args, b), limit)
    ensures buf[j..] == old(buf[j..])
  {
    ghost var written := buf[..i];
    if format[p] != '%' {
      ghost var c := [format[p]];
      PieceWritten(written, full, c, Render(format, p + 1, args, a), limit, 1);
      buf[i] := format[p];
      assert buf[..i + 1] == written + c[..1];
      return i + 1, p + 1, a;
    }
    q := p + 1;
    if q == |format| {
      return i, q, a;
    }
    j, b := AdvanceSpec(buf, i, limit, format, p, args, a, full);
    q := q + 1;
  }

  /** The conversion behind the `%` at `p`. */
  method AdvanceSpec(buf: array<char>, i: nat, limit: nat, format: CString, p: nat, args: seq<Arg>, a: nat, ghost full: string)
    returns (j: nat, b: nat)
    requires i < limit < buf.Length && p + 1 < |format| && format[p] == '%' && a <= |args| && Matching(format, p, args, a)
    requires Progress(buf[..i], full, Render(format, p, args, a), limit)
    modifies buf
    ensures b <= |args| && i <= j <= limit && Matching(format, p + 2, args, b)
    ensures Progress(buf[..j], full, Render(format, p + 2, args, b), limit)
    ensures buf[j..] == old(buf[j..])
  {
    var spec := format[p + 1];
    ghost var written, next := buf[..i], if TakesArgument(spec) then a + 1 else a;
    ghost var piece, rest := PieceOf(spec, args, a), Render(format, p + 2, args, next);
    assert Render(format, p, args, a) == piece + rest;
    j, b := WriteSpec(buf, i, limit, spec, args, a);
    PieceWritten(written, full, piece, rest, limit, j - i);
  }

  lemma ProgressEnds(written: string, full: string, rest: string, limit: nat)
    requires Progress(written, full, rest, limit) && (rest == "" || |written| == limit)
    ensures |written| == Min(|full|, limit) && written == full[..|written|]
  {
  }

  // ----- What is printed

  /** `%d` prints the value in base 10. */
  lemma DecimalParses(i: Int32)
    ensures Parse(Convert('d', Int(i)), 10) == Some(i)
    ensures Convert('d', Int(i)) != "" && (Convert('d', Int(i))[0] == '-' <==> i < 0)
  {
    RoundTrip(i, 10);
    SignExactly(i, 10);
  }

  /** `%s` prints the string, `(null)` for none, and `%c` the character. */
  lemma TextConversions(s: CString, c: char)
    ensures Convert('s', Str(Some(s))) == s
    ensures Convert('s', Str(None)) == "(null)"
    ensures Convert('c', Chr(c)) == [c]
  {
  }

  /** `%x` prints no upper-case letter, `%X` no lower-case one. */
  lemma LetterCases(u: Word)
    ensures forall k :: 0 <= k < |Convert('x', Uint(u))| ==> !('A' <= Convert('x', Uint(u))[k] <= 'Z')
    ensures forall k :: 0 <= k < |Convert('X', Uint(u))| ==> !('a' <= Convert('X', Uint(u))[k] <= 'z')
  {
    var s := Itoa(ToSigned(u), 16);
    HexDigits(Abs(ToSigned(u)));
    assert Convert('x', Uint(u)) == s && Convert('X', Uint(u)) == UpperAll(s);
  }

  lemma {:induction false} HexDigits(n: nat)
    ensures forall k :: 0 <= k < |Digits(n, 16)| ==> '0' <= Digits(n, 16)[k] <= '9' || 'a' <= Digits(n, 16)[k] <= 'f'
    decreases n
  {
    DigitsMeaning(n, 16);
    Quotient(n, 16);
    if n >= 16 {
      HexDigits(n / 16);
    }
  }

  /** A conversion takes an argument exactly when its letter is one of six. */
  lemma ArgumentsTaken(spec: char, arg: Arg)
    ensures TakesArgument(spec) <==> spec == 'd' || spec == 'u' || spec == 'x' || spec == 'X' || spec == 's' || spec == 'c'
    ensures Fits(spec, arg) <==>
      match arg
      case Int(_) => spec == 'd'
      case Uint(_) => spec == 'u' || spec == 'x' || spec == 'X'
      case Str(_) => spec == 's'
      case Chr(_) => spec == 'c'
  {
  }

  /** Text without `%` stands for itself, and takes no argument. */
  lemma {:induction false} PlainText(format: CString, p: nat, args: seq<Arg>, a: nat)
    requires p <= |format| && a <= |args| && forall k :: p <= k < |format| ==> format[k] != '%'
    ensures Matching(format, p, args, a) && Render(format, p, args, a) == format[p..]
    decreases |format| - p
  {
    if p < |format| {
      PlainText(format, p + 1, args, a);
      assert format[p..] == [format[p]] + format[p + 1..];
    }
  }

  /** In front of a conversion or behind one: the plain part up to position `m`, then the rest. */
  lemma {:induction false} PlainPart(format: CString, p: nat, m: nat, args: seq<Arg>, a: nat)
    requires p <= m <= |format| && a <= |args| && forall k :: p <= k < m ==> format[k] != '%'
    ensures Matching(format, p, args, a) <==> Matching(format, m, args, a)
    ensures Matching(format, p, args, a) ==>
      Render(format, p, args, a) == format[p..m] + Render(format, m, args, a)
    decreases m - p
  {
    if p < m {
      PlainPart(format, p + 1, m, args, a);
      assert format[p..m] == [format[p]] + format[p + 1..m];
    } else {
      assert format[p..m] == "";
    }
  }

  /** A rendering splits behind every conversion: the two characters at `m` stand for what they print,
      with the next argument if they take one; `%%` stands for `%`, an unknown one for itself. */
  lemma AtConversion(format: CString, m: nat, args: seq<Arg>, a: nat)
    requires m + 1 < |format| && a <= |args| && format[m] == '%' && Matching(format, m, args, a)
    ensures var spec := format[m + 1];
      if spec in "duxXsc" then
        && a < |args| && Fits(spec, args[a]) && Matching(format, m + 2, args, a + 1)
        && Render(format, m, args, a) == Convert(spec, args[a]) + Render(format, m + 2, args, a + 1)
      else
        && Matching(format, m + 2, args, a)
        && Render(format, m, args, a) == (if spec == '%' then "%" else ['%', spec]) + Render(format, m + 2, args, a)
  {
    var spec := format[m + 1];
    assert spec in "duxXsc" <==> TakesArgument(spec) by {
      assert forall c: char :: c in "duxXsc" <==> c == 'd' || c == 'u' || c == 'x' || c == 'X' || c == 's' || c == 'c';
    }
  }

  /** A format with one conversion between two plain texts. */
  lemma OneConversion(before: CString, spec: char, after: CString, arg: Arg) returns (format: CString)
    requires '%' !in before && '%' !in after && spec != '\0' && Fits(spec, arg)
    ensures format == before + ['%', spec] + after
    ensures Matching(format, 0, [arg], 0) && Render(format, 0, [arg], 0) == before + Convert(spec, arg) + after
  {
    format := before + ['%', spec] + after;
    var m := |before|;
    PlainText(format, m + 2, [arg], 1);
    assert format[m + 2..] == after && format[..m] == before;
    PlainPart(format, 0, m, [arg], 0);
    AtConversion(format, m, [arg], 0);
  }

  /** So a number logged between two texts stands in the buffer between them, as the digits of that
      number in base 10, when the buffer is large enough. */
  method PrintNumber(buf: array<char>, before: CString, i: Int32, after: CString) returns (n: nat)
    requires '%' !in before && '%' !in after && |before| + |after| + 12 <= buf.Length
    modifies buf
    ensures |before| + |after| <= n < buf.Length && buf[n] == '\0'
    ensures buf[..|before|] == before && buf[n - |after|..n] == after
    ensures Parse(buf[|before|..n - |after|], 10) == Some(i)
  {
    var format: CString := before + ['%', 'd'] + after;
    ghost var number := RenderedNumber(format, before, i, after);
    n := Vsnprintf(buf, buf.Length, format, [Int(i)]);
    ghost var all := buf[..];
    assert all[n] == '\0' && all[..n] == before + number + after;
    ThreeParts(all, n, before, number, after);
  }

  lemma RenderedNumber(format: CString, before: CString, i: Int32, after: CString) returns (number: string)
    requires '%' !in before && '%' !in after && format == before + ['%', 'd'] + after
    ensures Matching(format, 0, [Int(i)], 0) && Render(format, 0, [Int(i)], 0) == before + number + after
    ensures 1 <= |number| <= 11 && Parse(number, 10) == Some(i)
  {
    number := Convert('d', Int(i));
    var same := OneConversion(before, 'd', after, Int(i));
    FitsBuffers(i);
    DecimalParses(i);
  }

  lemma ThreeParts(s: string, n: nat, a: string, b: string, c: string)
    requires n <= |s| && s[..n] == a + b + c
    ensures n == |a| + |b| + |c|
    ensures s[..|a|] == a && s[|a|..n - |c|] == b && s[n - |c|..n] == c
  {
    var t := s[..n];
    assert t[..|a|] == a && t[|a|..n - |c|] == b && t[n - |c|..] == c;
  }

  // ----- What is printed for unsigned values

  /** The unsigned conversions go through the signed printer: `%u` shows the value exactly when it is
      below 2^31, `%x` and `%X` exactly when it is at most 2^31. */
  lemma UnsignedExactly(u: Word)
    ensures Parse(Convert('u', Uint(u)), 10) == Some(u) <==> u < 0x8000_0000
    ensures Parse(Convert('x', Uint(u)), 16) == Some(u) <==> u <= 0x8000_0000
    ensures Parse(Convert('X', Uint(u)), 16) == Some(u) <==> u <= 0x8000_0000
  {
    DecimalExactly(u);
    HexExactly(u);
    UpperHexExactly(u);
  }

  lemma UpperHexExactly(u: Word)
    ensures Parse(Convert('X', Uint(u)), 16) == Some(u) <==> u <= 0x8000_0000
  {
    var s := Itoa(ToSigned(u), 16);
    assert Convert('X', Uint(u)) == UpperAll(s);
    UpperParses(s, 16);
    RoundTrip(ToSigned(u), 16);
  }

  /** Letter case does not matter to the reader. */
  lemma UpperParses(s: string, b: nat)
    ensures Parse(UpperAll(s), b) == Parse(s, b)
  {
    UpperNumber(s, b);
    UpperDigits(s, b);
    if s != "" {
      assert UpperAll(s)[1..] == UpperAll(s[1..]);
      UpperNumber(s[1..], b);
      UpperDigits(s[1..], b);
    }
  }

  lemma UpperNumber(s: string, b: nat)
    ensures IsNumber(UpperAll(s), b) <==> IsNumber(s, b)
  {
    assert forall i :: 0 <= i < |s| ==> DigitValue(UpperAll(s)[i]) == DigitValue(s[i]);
  }

  lemma {:induction false} UpperDigits(s: string, b: nat)
    ensures ParseDigits(UpperAll(s), b) == ParseDigits(s, b)
  {
    if s != "" {
      UpperDigits(s[..|s| - 1], b);
      assert UpperAll(s)[..|s| - 1] == UpperAll(s[..|s| - 1]);
    }
  }

  lemma DecimalExactly(u: Word)
    ensures Parse(Convert('u', Uint(u)), 10) == Some(u) <==> u < 0x8000_0000
  {
    var v := ToSigned(u);
    assert Convert('u', Uint(u)) == Itoa(v, 10);
    RoundTrip(v, 10);
  }

  lemma HexExactly(u: Word)
    ensures Parse(Convert('x', Uint(u)), 16) == Some(u) <==> u <= 0x8000_0000
  {
    var v := ToSigned(u);
    assert Convert('x', Uint(u)) == Itoa(v, 16);
    RoundTrip(v, 16);
  }
}
