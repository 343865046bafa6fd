/** Decimal numbers and separated lists, as the Rust and the Go side print and parse them. */
module Text {
  import opened Prelude

  // ----- decimals

  function Digit(d: nat): char
    requires d < 10
  {
    '0' + d as char
  }

  predicate IsDigit(c: char) {
    '0' <= c <= '9'
  }

  function DigitValue(c: char): nat
    requires IsDigit(c)
  {
    c as nat - '0' as nat
  }

  /** `{}` in Rust, `strconv.FormatUint(n, 10)` in Go. */
  function Print(n: nat): (s: string)
    ensures s != ""
  {
    if n < 10 then [Digit(n)] else Print(n / 10) + [Digit(n % 10)]
  }

  predicate Digits(s: string) {
    s != "" && forall i :: 0 <= i < |s| ==> IsDigit(s[i])
  }

  function Value(s: string): nat
    requires forall i :: 0 <= i < |s| ==> IsDigit(s[i])
  {
    if s == "" then 0 else Value(s[..|s| - 1]) * 10 + DigitValue(s[|s| - 1])
  }

  /** `strconv.ParseUint(s, 10, 64)` */
  function ParseGo(s: string): (n: Option<nat>)
    ensures n.Some? ==> n.value < U64
  {
    if Digits(s) && Value(s) < U64 then Some(Value(s)) else None
  }

  /** `s.parse::<u64>()`, which allows a leading plus sign. */
  function ParseRust(s: string): (n: Option<nat>)
    ensures n.Some? ==> n.value < U64
  {
    if s != "" && s[0] == '+' then ParseGo(s[1..]) else ParseGo(s)
  }

  lemma ValueSingle(c: char)
    requires IsDigit(c)
    ensures Digits([c]) && Value([c]) == DigitValue(c)
  {
    assert [c][..0] == "";
  }

  lemma {:induction false} PrintDigits(n: nat)
    ensures Digits(Print(n)) && Value(Print(n)) == n
  {
    if n >= 10 {
      PrintDigits(n / 10);
      var s := Print(n);
      assert s[..|s| - 1] == Print(n / 10);
    } else {
      assert Print(n)[..0] == "";
    }
  }

  /** Both parsers read back what was printed if it fits into 64 bits, and refuse it otherwise. */
  lemma PrintParse(n: nat)
    ensures ParseGo(Print(n)) == ParseRust(Print(n)) == if n < U64 then Some(n) else None
  {
    PrintDigits(n);
    assert IsDigit(Print(n)[0]);
  }

  /** The parsers differ on plus signs only. */
  lemma ParsersAgree(s: string)
    ensures ParseGo(s) == if '+' in s then None else ParseRust(s)
  {
    if '+' in s {
      var i :| 0 <= i < |s| && s[i] == '+';
      assert !IsDigit(s[i]);
    }
  }

  // ----- separated lists

  function Join(parts: seq<string>, sep: char): string {
    if parts == [] then ""
    else if |parts| == 1 then parts[0]
    else parts[0] + [sep] + Join(parts[1..], sep)
  }

  /** `strings.Split` and `str::split` for a one-character separator. */
  function Split(s: string, sep: char): (parts: seq<string>)
    ensures parts != []
  {
    if s == "" then [""]
    else
      var rest := Split(s[1..], sep);
      if s[0] == sep then [""] + rest else [[s[0]] + rest[0]] + rest[1..]
  }

  lemma {:induction false} SplitPart(p: string, sep: char)
    requires sep !in p
    ensures Split(p, sep) == [p]
  {
    if p != "" {
      SplitPart(p[1..], sep);
      assert [p[0]] + p[1..] == p;
    }
  }

  lemma {:induction false} SplitCons(p: string, s: string, sep: char)
    requires sep !in p
    ensures Split(p + [sep] + s, sep) == [p] + Split(s, sep)
  {
    var whole := p + [sep] + s;
    if p == "" {
      assert whole[1..] == s;
    } else {
      SplitCons(p[1..], s, sep);
      assert whole[1..] == p[1..] + [sep] + s;
      assert [p[0]] + p[1..] == p && whole[0] == p[0];
    }
  }

  /** Splitting recovers joined parts that do not contain the separator. */
  lemma {:induction false} SplitJoin(parts: seq<string>, sep: char)
    requires parts != [] && forall i :: 0 <= i < |parts| ==> sep !in parts[i]
    ensures Split(Join(parts, sep), sep) == parts
  {
    if |parts| == 1 {
      SplitPart(parts[0], sep);
    } else {
      SplitJoin(parts[1..], sep);
      SplitCons(parts[0], Join(parts[1..], sep), sep);
    }
  }

  ghost predicate InSome(parts: seq<string>, c: char) {
    exists i :: 0 <= i < |parts| && c in parts[i]
  }

  /** A character other than the separator is in the string exactly when it is in one of the parts. */
  lemma {:induction false} SplitMembers(s: string, sep: char, c: char)
    requires c != sep
    ensures c in s <==> InSome(Split(s, sep), c)
  {
    if s != "" {
      var rest := Split(s[1..], sep);
      SplitMembers(s[1..], sep, c);
      assert c in s <==> s[0] == c || c in s[1..];
      if s[0] == sep {
        InSomeCons("", rest, c);
      } else {
        InSomeCons(rest[0], rest[1..], c);
        InSomeCons([s[0]] + rest[0], rest[1..], c);
        assert rest == [rest[0]] + rest[1..];
      }
    }
  }

  lemma InSomeCons(p: string, parts: seq<string>, c: char)
    ensures InSome([p] + parts, c) <==> c in p || InSome(parts, c)
  {
    var all := [p] + parts;
    if InSome(parts, c) {
      var i :| 0 <= i < |parts| && c in parts[i];
      assert c in all[i + 1];
    }
    if c in p {
      assert c in all[0];
    }
    if InSome(all, c) {
      var i :| 0 <= i < |all| && c in all[i];
      assert i > 0 ==> c in parts[i - 1];
    }
  }

  /** The position of the first `c`, or the length of the string. */
  function IndexOf(s: string, c: char): (i: nat)
    ensures i <= |s| && c !in s[..i] && (i < |s| ==> s[i] == c)
  {
    if s == "" || s[0] == c then 0
    else
      var i := IndexOf(s[1..], c);
      assert s[..i + 1] == [s[0]] + s[1..][..i];
      i + 1
  }

  lemma {:induction false} IndexOfAfter(a: string, c: char, b: string)
    requires c !in a
    ensures IndexOf(a + [c] + b, c) == |a|
  {
    if a != "" {
      IndexOfAfter(a[1..], c, b);
      assert (a + [c] + b)[1..] == a[1..] + [c] + b;
    }
  }

  /** A pair of numbers around a dash splits at the dash. */
  lemma AroundDash(a: string, b: string)
    requires '-' !in a && ',' !in a && ',' !in b
    ensures var s := a + "-" + b;
            IndexOf(s, '-') == |a| < |s| && s[..|a|] == a && s[|a| + 1..] == b && ',' !in s
  {
    assert a + ['-'] + b == a + "-" + b;
    IndexOfAfter(a, '-', b);
  }
}
