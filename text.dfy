/**
 * The pieces of Python's string semantics that `stagpy/commands.py` relies on:
 * `str.join`, `str.format` of an integer (`str(int)`), and the concatenation of
 * lists. `Split` and `ParseNat` are not used by the program: they are the
 * parsers the round-trip lemmas about the printed text read it back with.
 */
module Text {
  import opened Wrappers

  function Spaces(n: nat): (s: string)
    ensures |s| == n && forall i :: 0 <= i < n ==> s[i] == ' '
  {
    seq(n, _ => ' ')
  }

  /** The concatenation of a sequence of sequences (Python's `list.extend` in a loop). */
  function Concat<T>(ss: seq<seq<T>>): seq<T>
  {
    if ss == [] then [] else Concat(ss[..|ss| - 1]) + ss[|ss| - 1]
  }

  lemma {:induction false} ConcatFront<T>(ss: seq<seq<T>>)
    requires ss != []
    ensures Concat(ss) == ss[0] + Concat(ss[1..])
  {
    if |ss| > 1 {
      var init := ss[..|ss| - 1];
      ConcatFront(init);
      assert init[1..] == ss[1..][..|ss[1..]| - 1];
    } else {
      assert ss[..0] == [];
      assert ss[1..] == [];
    }
  }

  lemma {:induction false} ConcatSplit<T>(ss: seq<seq<T>>, k: nat)
    requires k <= |ss|
    ensures Concat(ss[..k]) + Concat(ss[k..]) == Concat(ss)
    decreases |ss| - k
  {
    if k == |ss| {
      assert ss[..k] == ss;
      assert ss[k..] == [];
    } else {
      ConcatSplit(ss, k + 1);
      assert ss[..k + 1][..k] == ss[..k];
      ConcatFront(ss[k..]);
      assert ss[k..][1..] == ss[k + 1..];
    }
  }

  /** Python's `sep.join(parts)`. */
  function Join(sep: string, parts: seq<string>): string
  {
    if parts == [] then ""
    else if |parts| == 1 then parts[0]
    else parts[0] + sep + Join(sep, parts[1..])
  }

  lemma {:induction false} JoinAppend(sep: string, parts: seq<string>, last: string)
    requires parts != []
    ensures Join(sep, parts + [last]) == Join(sep, parts) + sep + last
  {
    if |parts| > 1 {
      JoinAppend(sep, parts[1..], last);
      assert (parts + [last])[1..] == parts[1..] + [last];
    }
  }

  /** Python's `s.split(sep)` for a one-character separator: never an empty list. */
  function Split(sep: char, s: string): (parts: seq<string>)
    ensures |parts| >= 1
  {
    if s == [] then [""]
    else
      var rest := Split(sep, s[1..]);
      if s[0] == sep then [""] + rest else [[s[0]] + rest[0]] + rest[1..]
  }

  lemma {:induction false} SplitWithout(sep: char, s: string)
    requires sep !in s
    ensures Split(sep, s) == [s]
  {
    if s != [] {
      SplitWithout(sep, s[1..]);
      assert [s[0]] + s[1..] == s;
    }
  }

  lemma {:induction false} SplitAfter(sep: char, a: string, t: string)
    requires sep !in a
    ensures Split(sep, a + [sep] + t) == [a] + Split(sep, t)
  {
    if a == [] {
      assert a + [sep] + t == [sep] + t;
      assert ([sep] + t)[1..] == t;
    } else {
      SplitAfter(sep, a[1..], t);
      assert (a + [sep] + t)[1..] == a[1..] + [sep] + t;
      assert [a[0]] + a[1..] == a;
    }
  }

  /** Splitting on the character that joined the parts returns the parts, when no part contains it. */
  lemma {:induction false} SplitJoin(sep: char, parts: seq<string>)
    requires |parts| >= 1
    requires forall i :: 0 <= i < |parts| ==> sep !in parts[i]
    ensures Split(sep, Join([sep], parts)) == parts
  {
    if |parts| == 1 {
      SplitWithout(sep, parts[0]);
    } else {
      SplitJoin(sep, parts[1..]);
      SplitAfter(sep, parts[0], Join([sep], parts[1..]));
    }
  }

  /** Joining the pieces of a split with the separator gives back the text. */
  lemma {:induction false} JoinSplit(sep: char, s: string)
    ensures Join([sep], Split(sep, s)) == s
  {
    if s != [] {
      var rest := Split(sep, s[1..]);
      JoinSplit(sep, s[1..]);
      if s[0] == sep {
        JoinEmptyFirst([sep], rest);
      } else {
        JoinConsFirst([sep], s[0], rest);
      }
      assert s == [s[0]] + s[1..];
    }
  }

  lemma JoinEmptyFirst(sep: string, parts: seq<string>)
    requires parts != []
    ensures Join(sep, [""] + parts) == sep + Join(sep, parts)
  {
    assert ([""] + parts)[1..] == parts;
  }

  lemma JoinConsFirst(sep: string, c: char, parts: seq<string>)
    requires parts != []
    ensures Join(sep, [[c] + parts[0]] + parts[1..]) == [c] + Join(sep, parts)
  {
    var glued := [[c] + parts[0]] + parts[1..];
    assert glued[1..] == parts[1..];
  }

  predicate IsDigit(c: char) { '0' <= c <= '9' }

  function DigitChar(d: nat): (c: char)
    requires d < 10
    ensures IsDigit(c) && c as int - '0' as int == d
  {
    (d + '0' as int) as char
  }

  /** Python's `str(n)` for a natural number: decimal digits, no leading zero. */
  function Digits(n: nat): string
  {
    if n < 10 then [DigitChar(n)] else Digits(n / 10) + [DigitChar(n % 10)]
  }

  /** Python's `str(n)` for any integer. */
  function DecimalString(n: int): string
  {
    if n < 0 then "-" + Digits(-n) else Digits(n)
  }

  /** The value of a string of decimal digits; `None` when a character is not a digit. */
  function DigitsValue(s: string): Option<nat>
  {
    if s == [] then Some(0)
    else if !IsDigit(s[|s| - 1]) then None
    else match DigitsValue(s[..|s| - 1])
      case None => None
      case Some(v) => Some(10 * v + (s[|s| - 1] as int - '0' as int))
  }

  /**
   * Reads back a natural number written as `str(n)` writes it: decimal digits with no
   * leading zero (other than `0` itself); `None` for anything else.
   */
  function ParseNat(s: string): Option<nat>
  {
    if s == [] || (|s| > 1 && s[0] == '0') then None else DigitsValue(s)
  }

  lemma {:induction false} DigitsOnly(n: nat)
    ensures Digits(n) != []
    ensures forall i :: 0 <= i < |Digits(n)| ==> IsDigit(Digits(n)[i])
  {
    if n >= 10 { DigitsOnly(n / 10); }
  }

  /** `str(n)` starts with `0` only for `n == 0`. */
  lemma {:induction false} DigitsLeading(n: nat)
    ensures Digits(n)[0] == '0' <==> n == 0
  {
    if n >= 10 {
      DigitsLeading(n / 10);
      DigitsOnly(n / 10);
      assert Digits(n)[0] == Digits(n / 10)[0];
    }
  }

  lemma {:induction false} ParseDigits(n: nat)
    ensures ParseNat(Digits(n)) == Some(n)
  {
    DigitsLeading(n);
    if n >= 10 {
      ParseDigits(n / 10);
      DigitsOnly(n / 10);
      DigitsLeading(n / 10);
      var s := Digits(n);
      assert s[..|s| - 1] == Digits(n / 10);
      assert s[|s| - 1] == DigitChar(n % 10);
      assert DigitsValue(s[..|s| - 1]) == Some(n / 10);
      assert DigitsValue(s) == Some(10 * (n / 10) + n % 10);
    } else {
      var s := Digits(n);
      assert s == [DigitChar(n)] && s[..0] == [];
      assert DigitsValue(s[..0]) == Some(0);
      assert DigitsValue(s) == Some(s[0] as int - '0' as int);
    }
  }

  /** `ParseNat` accepts only the text `str(n)` writes: parsing is one-to-one. */
  lemma {:induction false} ParseNatExact(s: string, n: nat)
    requires ParseNat(s) == Some(n)
    ensures s == Digits(n)
    decreases |s|
  {
    var p := s[..|s| - 1];
    var c := s[|s| - 1];
    var v :| DigitsValue(p) == Some(v) && n == 10 * v + (c as int - '0' as int);
    var d := c as int - '0' as int;
    assert 0 <= d < 10 && DigitChar(d) == c;
    if |s| == 1 {
      assert p == [] && v == 0;
      assert s == [c];
    } else {
      assert p[0] == s[0];
      assert ParseNat(p) == Some(v);
      ParseNatExact(p, v);
      DigitsLeading(v);
      assert v >= 1;
      assert n / 10 == v && n % 10 == d;
      assert Digits(n) == Digits(v) + [DigitChar(d)];
      assert s == p + [c];
    }
  }

  /** A decimal string holds digits and at most a minus sign. */
  lemma DecimalChars(n: int)
    ensures forall i :: 0 <= i < |DecimalString(n)| ==> IsDigit(DecimalString(n)[i]) || DecimalString(n)[i] == '-'
  {
    if n < 0 { DigitsOnly(-n); } else { DigitsOnly(n); }
  }
}
