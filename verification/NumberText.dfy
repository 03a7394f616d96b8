/** The string builders of kernel/client.c: append_string and append_number write into a buffer,
    digits backwards first and then reversed in place, and do_mmap builds a path with them. */
module NumberText {

  // ------------------------------------------------------------ C arithmetic

  function TruncDiv10(n: int): int {
    if n >= 0 then n / 10 else -((-n) / 10)
  }

  /** num % 10 + '0' as a char. */
  function Digit(n: int): char {
    var r := n - 10 * TruncDiv10(n);
    ('0' as int + r) as char
  }

  // -------------------------------------------------------------------- text

  /** The characters append_number leaves, most significant first. */
  function Text(n: int): (t: seq<char>)
    ensures t != []
    decreases if n >= 0 then n else -n
  {
    if TruncDiv10(n) == 0 then [Digit(n)] else Text(TruncDiv10(n)) + [Digit(n)]
  }

  predicate IsDigit(c: char) {
    '0' <= c <= '9'
  }

  predicate AllDigits(t: seq<char>) {
    forall i :: 0 <= i < |t| ==> IsDigit(t[i])
  }

  /** The number that characters denote when read as decimal digits, also below '0'. */
  function Value(t: seq<char>): int {
    if t == [] then 0 else 10 * Value(t[..|t| - 1]) + (t[|t| - 1] as int - '0' as int)
  }

  /** Reading the text gives the number back, for every int. The text is made of digits exactly when the
      number is not negative, and then has no leading zero. */
  lemma {:induction false} TextParsesExactly(n: int)
    ensures Value(Text(n)) == n
    ensures AllDigits(Text(n)) <==> n >= 0
    ensures n > 0 ==> Text(n)[0] != '0'
    decreases if n >= 0 then n else -n
  {
    var q := TruncDiv10(n);
    if q == 0 {
      assert Text(n)[0] == Digit(n) && Text(n)[..0] == [];
    } else {
      TextParsesExactly(q);
      assert Text(n)[..|Text(n)| - 1] == Text(q);
      assert forall i :: 0 <= i < |Text(q)| ==> Text(n)[i] == Text(q)[i];
    }
  }

  /** No character lies above '9', also for negative numbers. */
  lemma {:induction false} TextIsLow(n: int)
    ensures AllLow(Text(n))
    decreases if n >= 0 then n else -n
  {
    if TruncDiv10(n) != 0 { TextIsLow(TruncDiv10(n)); }
  }

  predicate AllLow(t: seq<char>) {
    forall i :: 0 <= i < |t| ==> t[i] <= '9'
  }

  function Pow10(d: nat): nat {
    if d == 0 then 1 else 10 * Pow10(d - 1)
  }

  lemma {:induction false} TextLength(n: int, d: nat)
    requires d >= 1 && n < Pow10(d) && 0 < n + Pow10(d)
    ensures |Text(n)| <= d
    decreases d
  {
    if TruncDiv10(n) != 0 {
      assert d > 1;
      TextLength(TruncDiv10(n), d - 1);
    }
  }

  /** Ten characters are enough for every int. */
  lemma IntTextLength(n: int)
    requires -0x8000_0000 <= n < 0x8000_0000
    ensures |Text(n)| <= 10
  {
    assert Pow10(2) == 100 && Pow10(4) == 10000;
    assert Pow10(8) == 100000000 by { assert Pow10(6) == 1000000; }
    assert Pow10(10) == 10000000000;
    TextLength(n, 10);
  }

  // -------------------------------------------------------------------- path

  function Path(pid: int, fd: int): seq<char> {
    "/proc/" + Text(pid) + "/fd/" + Text(fd)
  }

  /** How many characters up to '9' a text starts with. */
  function LeadingLow(t: seq<char>): nat {
    if t == [] || t[0] > '9' then 0 else 1 + LeadingLow(t[1..])
  }

  lemma {:induction false} LowUpToLetter(a: seq<char>, x: seq<char>)
    requires AllLow(a) && x != [] && x[0] > '9'
    ensures LeadingLow(a + x) == |a|
  {
    if a == [] {
      assert a + x == x;
    } else {
      assert (a + x)[1..] == a[1..] + x;
      LowUpToLetter(a[1..], x);
    }
  }

  /** What follows "/proc/", cut at its first letter, which is that of "/fd/". */
  lemma PathParts(pid: int, fd: int)
    ensures var rest := Path(pid, fd)[6..];
      && LeadingLow(rest) == |Text(pid)| + 1 && |rest| >= |Text(pid)| + 4
      && Path(pid, fd)[..6] == "/proc/" && rest[|Text(pid)|..|Text(pid)| + 4] == "/fd/"
      && rest[..|Text(pid)|] == Text(pid) && rest[|Text(pid)| + 4..] == Text(fd)
  {
    TextIsLow(pid);
    var a, x := Text(pid) + "/", "fd/" + Text(fd);
    assert Path(pid, fd)[6..] == a + x;
    LowUpToLetter(a, x);
    assert (a + x)[|Text(pid)| + 4..] == x[3..] == Text(fd);
    assert (a + x)[..|Text(pid)|] == Text(pid);
  }

  /** Different processes or descriptors have different paths, whatever the numbers. */
  lemma PathDetermines(pid: int, fd: int, pid': int, fd': int)
    requires Path(pid, fd) == Path(pid', fd')
    ensures pid == pid' && fd == fd'
  {
    PathParts(pid, fd);
    PathParts(pid', fd');
    TextParsesExactly(pid);
    TextParsesExactly(pid');
    TextParsesExactly(fd);
    TextParsesExactly(fd');
  }

  // ----------------------------------------------------------------- buffers

  /** `t` and a terminating NUL stand at `at`. */
  predicate Holds(buf: seq<char>, at: nat, t: seq<char>) {
    && at + |t| < |buf| && buf[at + |t|] == '\0'
    && forall p :: at <= p < at + |t| ==> buf[p] == t[p - at]
  }

  /** Nothing outside the positions from `lo` to `hi` differs. */
  predicate SameOutside(buf: seq<char>, was: seq<char>, lo: nat, hi: nat) {
    |buf| == |was| && forall p :: 0 <= p < |buf| && !(lo <= p <= hi) ==> buf[p] == was[p]
  }

  method AppendString(buf: array<char>, target: nat, source: seq<char>) returns (end: nat)
    requires target + |source| < buf.Length && '\0' !in source
    modifies buf
    ensures end == target + |source| && Holds(buf[..], target, source)
    ensures SameOutside(buf[..], old(buf[..]), target, end)
  {
    for i := 0 to |source|
      invariant forall p :: target <= p < target + i ==> buf[p] == source[p - target]
      invariant SameOutside(buf[..], old(buf[..]), target, target + |source|)
    {
      buf[target + i] := source[i];
    }
    end := target + |source|;
    buf[end] := '\0';
  }

  /** The first loop of append_number: the digits, least significant first. */
  method WriteBackwards(buf: array<char>, target: nat, number: int) returns (n: nat)
    requires target + |Text(number)| < buf.Length
    modifies buf
    ensures n == |Text(number)|
    ensures forall p :: target <= p < target + n ==> buf[p] == Text(number)[n - 1 - (p - target)]
    ensures SameOutside(buf[..], old(buf[..]), target, target + n)
  {
    var num := number;
    ghost var text := Text(number);
    ghost var len := |text|;
    n := 0;
    var more := true;  // the loop tests its condition at the end
    while more
      invariant more ==> n < len && text[..len - n] == Text(num)
      invariant !more ==> n == len
      invariant n <= len && forall p :: target <= p < target + n ==> buf[p] == text[len - 1 - (p - target)]
      invariant SameOutside(buf[..], old(buf[..]), target, target + len)
      decreases len - n, more
    {
      assert text[..len - n][len - n - 1] == Digit(num);
      buf[target + n] := Digit(num);
      n := n + 1;
      num := TruncDiv10(num);
      more := num != 0;
      if more { assert text[..len - n] == text[..len - n + 1][..len - n]; }
    }
  }

  /** The second loop of append_number: exchanges ends until they meet. */
  method ReverseInPlace(buf: array<char>, target: nat, len: nat) returns (i: nat, n: nat)
    requires target + len < buf.Length
    modifies buf
    ensures i + n == len
    ensures forall p :: target <= p < target + len ==> buf[p] == old(buf[target + len - 1 - (p - target)])
    ensures forall p :: 0 <= p < buf.Length && !(target <= p < target + len) ==> buf[p] == old(buf[p])
  {
    n, i := len, 0;
    while n - 1 > i
      invariant i + n == len && (i <= n || len == 0)
      invariant forall p :: target <= p < target + len ==>
        buf[p] == if target + i <= p < target + n then old(buf[p]) else old(buf[target + len - 1 - (p - target)])
      invariant forall p :: 0 <= p < buf.Length && !(target <= p < target + len) ==> buf[p] == old(buf[p])
    {
      n := n - 1;
      var x := buf[target + n];
      buf[target + n] := buf[target + i];
      buf[target + i] := x;
      i := i + 1;
    }
  }

  /** Writes the number and a NUL, and returns where the NUL is. */
  method AppendNumber(buf: array<char>, target: nat, number: int) returns (end: nat)
    requires target + |Text(number)| < buf.Length
    modifies buf
    ensures end == target + |Text(number)| && Holds(buf[..], target, Text(number))
    ensures SameOutside(buf[..], old(buf[..]), target, end)
  {
    var len := WriteBackwards(buf, target, number);
    buf[target + len] := '\0';
    var i, n := ReverseInPlace(buf, target, len);
    end := target + i + n;
  }

  /** The path do_mmap opens, in its buffer of 32 bytes, for every pid and descriptor an int can hold. */
  method BuildPath(pid: int, fd: int) returns (str: array<char>)
    requires -0x8000_0000 <= pid < 0x8000_0000 && -0x8000_0000 <= fd < 0x8000_0000
    ensures fresh(str) && str.Length == 32 && Holds(str[..], 0, Path(pid, fd))
  {
    IntTextLength(pid);
    IntTextLength(fd);
    str := new char[32];
    var s := AppendString(str, 0, "/proc/");
    ghost var b1 := str[..];
    s := AppendNumber(str, s, pid);
    ghost var b2 := str[..];
    s := AppendString(str, s, "/fd/");
    ghost var b3 := str[..];
    s := AppendNumber(str, s, fd);
    HoldsAppend(b1, b2, "/proc/", Text(pid));
    HoldsAppend(b2, b3, "/proc/" + Text(pid), "/fd/");
    HoldsAppend(b3, str[..], "/proc/" + Text(pid) + "/fd/", Text(fd));
  }

  /** Text appended over the NUL of a text continues it. */
  lemma HoldsAppend(before: seq<char>, after: seq<char>, t: seq<char>, u: seq<char>)
    requires Holds(before, 0, t) && Holds(after, |t|, u) && SameOutside(after, before, |t|, |t| + |u|)
    ensures Holds(after, 0, t + u)
  {
  }
}
