/** Python's `str.split(sep)` for a one-character separator, and the
    helpers built on it: the habitat-code list, the species key of an AOH file
    name, and the decimal rendering of an integer used in file names. */
module Text {

  /** Number of occurrences of `c` in `s`. */
  function Count(s: string, c: char): nat
  {
    if |s| == 0 then 0 else (if s[0] == c then 1 else 0) + Count(s[1..], c)
  }

  /** `s.split(sep)`: the maximal pieces of `s` between separators. */
  function Split(s: string, sep: char): (r: seq<string>)
    ensures |r| == Count(s, sep) + 1
    ensures forall i :: 0 <= i < |r| ==> sep !in r[i]
  {
    if |s| == 0 then [""]
    else if s[0] == sep then [""] + Split(s[1..], sep)
    else
      var rest := Split(s[1..], sep);
      [[s[0]] + rest[0]] + rest[1..]
  }

  /** `sep.join(parts)`. */
  function Join(parts: seq<string>, sep: char): string
    requires |parts| >= 1
  {
    if |parts| == 1 then parts[0] else parts[0] + [sep] + Join(parts[1..], sep)
  }

  /** Joining the pieces again gives back the original text. */
  lemma {:induction false} JoinSplit(s: string, sep: char)
    ensures Join(Split(s, sep), sep) == s
  {
    if |s| == 0 {
    } else if s[0] == sep {
      JoinSplit(s[1..], sep);
      assert s == [sep] + s[1..];
    } else {
      var rest := Split(s[1..], sep);
      JoinSplit(s[1..], sep);
      if |rest| == 1 {
        assert Join(rest, sep) == rest[0];
      } else {
        assert Join(rest, sep) == rest[0] + [sep] + Join(rest[1..], sep);
        assert ([[s[0]] + rest[0]] + rest[1..])[1..] == rest[1..];
      }
      assert s == [s[0]] + s[1..];
    }
  }

  /** Splitting a join of separator-free pieces gives back the pieces. */
  lemma {:induction false} SplitJoin(parts: seq<string>, sep: char)
    requires |parts| >= 1
    requires forall i :: 0 <= i < |parts| ==> sep !in parts[i]
    ensures Split(Join(parts, sep), sep) == parts
  {
    if |parts| == 1 {
      SplitNoSeparator(parts[0], sep);
    } else {
      SplitJoin(parts[1..], sep);
      SplitPrefix(parts[0], Join(parts[1..], sep), sep);
      assert parts == [parts[0]] + parts[1..];
    }
  }

  /** A text without separators is a single piece. */
  lemma {:induction false} SplitNoSeparator(s: string, sep: char)
    requires sep !in s
    ensures Split(s, sep) == [s]
  {
    if |s| > 0 {
      SplitNoSeparator(s[1..], sep);
      assert s == [s[0]] + s[1..];
    }
  }

  /** A separator-free head followed by a separator starts a new piece. */
  lemma {:induction false} SplitPrefix(head: string, tail: string, sep: char)
    requires sep !in head
    ensures Split(head + [sep] + tail, sep) == [head] + Split(tail, sep)
  {
    if |head| == 0 {
      assert head + [sep] + tail == [sep] + tail;
      assert ([sep] + tail)[1..] == tail;
    } else {
      var s := head + [sep] + tail;
      assert s[1..] == head[1..] + [sep] + tail;
      SplitPrefix(head[1..], tail, sep);
      assert [head[0]] + head[1..] == head;
    }
  }

  /** `name.split('_')[0]`: the species key of an AOH raster file name. */
  function SpeciesKey(name: string): (key: string)
    ensures '_' !in key
    ensures |key| <= |name| && name[..|key|] == key
    ensures |key| < |name| ==> name[|key|] == '_'
    ensures '_' !in name ==> key == name
  {
    if |name| == 0 || name[0] == '_' then ""
    else [name[0]] + SpeciesKey(name[1..])
  }

  /** The key of `id + "_" + rest` is `id` whenever `id` holds no underscore:
      grouping AOH files by key recovers the species id of their names. */
  lemma {:induction false} SpeciesKeyOfStem(id: string, rest: string)
    requires '_' !in id
    ensures SpeciesKey(id + "_" + rest) == id
  {
    if |id| > 0 {
      assert (id + "_" + rest)[1..] == id[1..] + "_" + rest;
      SpeciesKeyOfStem(id[1..], rest);
      assert [id[0]] + id[1..] == id;
    }
  }

  /** Decimal digits of a natural number, most significant first. */
  function Digits(n: nat): (r: string)
    ensures |r| >= 1
    ensures forall i :: 0 <= i < |r| ==> '0' <= r[i] <= '9'
    decreases n
  {
    if n < 10 then [DigitChar(n)] else Digits(n / 10) + [DigitChar(n % 10)]
  }

  function DigitChar(d: nat): char
    requires d < 10
  {
    (48 + d) as char
  }

  /** Python's `str(n)` for an integer. */
  function ShowInt(n: int): (r: string)
    ensures |r| >= 1 && (r[0] == '-' <==> n < 0)
  {
    if n < 0 then "-" + Digits(-n) else Digits(n)
  }

  /** Reads back a digit string; the inverse of `Digits`. */
  function ParseDigits(s: string): nat
    requires forall i :: 0 <= i < |s| ==> '0' <= s[i] <= '9'
  {
    if |s| == 0 then 0
    else 10 * ParseDigits(s[..|s| - 1]) + ((s[|s| - 1] as int) - 48)
  }

  lemma {:induction false} ParseDigitsInverse(n: nat)
    ensures ParseDigits(Digits(n)) == n
    decreases n
  {
    if n >= 10 {
      var d := Digits(n);
      ParseDigitsInverse(n / 10);
      assert d[..|d| - 1] == Digits(n / 10);
    }
  }

  /** Different integers render as different texts. */
  lemma {:induction false} ShowIntInjective(a: int, b: int)
    requires ShowInt(a) == ShowInt(b)
    ensures a == b
  {
    if a < 0 && b < 0 {
      NegativeShowInjective(a, b);
    } else if a >= 0 && b >= 0 {
      ParseDigitsInverse(a);
      ParseDigitsInverse(b);
    } else {
      assert false;
    }
  }

  lemma {:induction false} NegativeShowInjective(a: int, b: int)
    requires a < 0 && b < 0
    requires ShowInt(a) == ShowInt(b)
    ensures a == b
  {
    var da, db := Digits(-a), Digits(-b);
    assert ShowInt(a) == "-" + da && ShowInt(b) == "-" + db;
    assert ("-" + da)[1..] == da && ("-" + db)[1..] == db;
    DigitsInjective(-a, -b);
  }

  lemma DigitsInjective(m: nat, n: nat)
    requires Digits(m) == Digits(n)
    ensures m == n
  {
    ParseDigitsInverse(m);
    ParseDigitsInverse(n);
  }
}
