/** NUL-terminated strings: what a `char` buffer holds, and the library routines the name tables use. */
module CStrings {

  /** The characters before the terminator; a C string never contains one. */
  type CString = s: string | forall i :: 0 <= i < |s| ==> s[i] != '\0'

  /** The string a buffer holds: everything before its first NUL. */
  ghost predicate Holds(buf: seq<char>, s: CString) {
    && |s| < |buf|
    && buf[..|s|] == s
    && buf[|s|] == '\0'
  }

  /** What is left of `s` in a buffer that keeps at most `n` characters. */
  function Truncate(s: CString, n: nat): (r: CString)
    ensures |r| <= n && r <= s
    ensures r == s <==> |s| <= n
    ensures |r| < n ==> r == s
  {
    if |s| <= n then s else s[..n]
  }

  method Strlen(str: array<char>, ghost s: CString) returns (len: nat)
    requires Holds(str[..], s)
    ensures len == |s|
    ensures len < str.Length && str[len] == '\0' && forall k :: 0 <= k < len ==> str[k] == s[k] != '\0'
  {
    len := 0;
    while str[len] != '\0'
      invariant len <= |s| && forall k :: 0 <= k < len ==> str[k] == s[k] != '\0'
      decreases |s| - len
    {
      assert str[..][len] == str[len] && str[..|s|][len] == s[len];
      len := len + 1;
    }
    assert str[..][len] == '\0';
  }

  /** The sign of the first difference, as unsigned characters; zero exactly on equal strings. */
  method Strcmp(s1: array<char>, s2: array<char>, ghost a: CString, ghost b: CString) returns (r: int)
    requires Holds(s1[..], a) && Holds(s2[..], b)
    ensures r == 0 <==> a == b
    ensures r < 0 <==> Before(a, b)
  {
    var i := 0;
    assert s1[..][|a|] == '\0' && s2[..][|b|] == '\0';
    while s1[i] != '\0' && s1[i] == s2[i]
      invariant i <= |a| && i <= |b| && a[..i] == b[..i]
      decreases |a| - i
    {
      assert i < |a| && s1[..][i] == a[i];
      assert i < |b| && s2[..][i] == b[i];
      i := i + 1;
    }
    r := s1[i] as int - s2[i] as int;
    assert i < |a| ==> s1[..][i] == a[i];
    assert i < |b| ==> s2[..][i] == b[i];
    FirstDifference(a, b, i);
  }

  /** Dictionary order of C strings. */
  ghost predicate Before(a: CString, b: CString) {
    exists i :: 0 <= i <= |a| && i < |b| && a[..i] == b[..i] && (i == |a| || a[i] < b[i])
  }

  /** Letter by letter: the first difference decides, and a proper prefix comes first. */
  lemma BeforeIsDictionaryOrder(a: CString, b: CString)
    ensures Before(a, b) <==> b != "" && (a == "" || a[0] < b[0] || (a[0] == b[0] && Before(a[1..], b[1..])))
  {
    if b != "" && a != "" && a[0] == b[0] {
      if Before(a[1..], b[1..]) {
        var i :| 0 <= i <= |a[1..]| && i < |b[1..]| && a[1..][..i] == b[1..][..i] && (i == |a[1..]| || a[1..][i] < b[1..][i]);
        assert a[..i + 1] == [a[0]] + a[1..][..i] && b[..i + 1] == [b[0]] + b[1..][..i];
      }
      if Before(a, b) {
        var i :| 0 <= i <= |a| && i < |b| && a[..i] == b[..i] && (i == |a| || a[i] < b[i]);
        assert i > 0 && a[1..][..i - 1] == a[..i][1..] && b[1..][..i - 1] == b[..i][1..];
      }
    } else {
      FirstDifference(a, b, 0);
    }
  }

  lemma FirstDifference(a: CString, b: CString, i: nat)
    requires i <= |a| && i <= |b| && a[..i] == b[..i]
    requires i == |a| || i == |b| || a[i] != b[i]
    ensures a == b <==> i == |a| == |b|
    ensures Before(a, b) <==> i < |b| && (i == |a| || a[i] < b[i])
  {
    assert forall j :: 0 <= j < i ==> a[..i][j] == a[j] && b[..i][j] == b[j];
    forall k | 0 <= k <= |a| && k < |b| && a[..k] == b[..k] && (k == |a| || a[k] < b[k])
      ensures k == i
    {
      assert forall j :: 0 <= j < k ==> a[..k][j] == a[j] && b[..k][j] == b[j];
    }
  }

  /** What `strncpy` leaves in the first `n` characters: the source cut to `n`, padded with NULs. */
  function Padded(s: CString, n: nat): (r: string)
    ensures |r| == n
  {
    Truncate(s, n) + seq(n - |Truncate(s, n)|, _ => '\0')
  }

  /** As far as `n` characters the buffer holds `s`; behind them it need not be terminated. */
  ghost predicate HoldsUpTo(buf: seq<char>, s: CString, n: nat) {
    Holds(buf, s) || (n <= |buf| && s == buf[..n])
  }

  method Strncpy(dest: array<char>, src: array<char>, n: nat, ghost s: CString)
    requires dest != src && n <= dest.Length && HoldsUpTo(src[..], s, n)
    modifies dest
    ensures dest[..n] == Padded(s, n) && dest[n..] == old(dest[n..])
  {
    ghost var t := Truncate(s, n);
    var i := 0;
    assert |s| < n ==> src[..][|s|] == '\0';
    while i < n && src[i] != '\0'
      invariant i <= |t| && src[..] == old(src[..])
      invariant dest[..i] == t[..i] && dest[n..] == old(dest[n..])
    {
      assert i < |s| && src[..][i] == s[i];
      dest[i] := src[i];
      i := i + 1;
    }
    assert i < |s| ==> src[..][i] == s[i];
    assert i == |t|;
    while i < n
      invariant |t| <= i <= n
      invariant dest[..|t|] == t && dest[n..] == old(dest[n..])
      invariant forall k :: |t| <= k < i ==> dest[k] == '\0'
    {
      dest[i] := '\0';
      i := i + 1;
    }
  }

  /** A name table's copy: `strncpy`, then the terminator. Without it a name of `n` characters or more
      would run on into whatever lies behind. */
  method StoreName(dest: array<char>, src: array<char>, n: nat, ghost s: CString)
    requires dest != src && n < dest.Length && HoldsUpTo(src[..], s, n)
    modifies dest
    ensures Holds(dest[..], Truncate(s, n)) && dest[n + 1..] == old(dest[n + 1..])
  {
    Strncpy(dest, src, n, s);
    ghost var copied := dest[..];
    dest[n] := '\0';
    assert dest[..] == copied[n := '\0'];
    PaddedHolds(copied[..n], dest[n + 1..], s, n);
    assert dest[..] == (copied[..n] + ['\0']) + dest[n + 1..];
  }

  lemma PaddedHolds(name: string, rest: string, s: CString, n: nat)
    requires name == Padded(s, n)
    ensures Holds((name + ['\0']) + rest, Truncate(s, n))
  {
  }

  /** `strncpy` alone terminates the name exactly when it is shorter than `n`; the string such a buffer
      then holds is the name itself. */
  lemma TerminatesExactly(buf: string, s: CString, n: nat)
    requires n <= |buf| && buf[..n] == Padded(s, n)
    ensures (exists k :: 0 <= k < n && buf[k] == '\0') <==> |s| < n
    ensures |s| < n ==> Holds(buf, s)
  {
    var t := Truncate(s, n);
    assert forall k :: 0 <= k < n ==> buf[k] == Padded(s, n)[k];
    if |s| < n {
      assert buf[|s|] == '\0' && buf[..|s|] == s;
    }
  }
}
