/**
 * The few Python string built-ins the monitor relies on, on Python 2 `str`
 * values (byte strings, modelled as sequences of characters):
 *  - `s.split(sep)` with an explicit one-character separator (Split),
 *  - `s.split()` with no argument, which splits on runs of whitespace (Words),
 *  - `float(field)` restricted to the unsigned decimal integers that `ps`
 *    prints in its RSS column (ParseNat).
 */
module Text {
  import opened Wrappers

  type String = seq<char>

  // ---------------------------------------------------------------------------
  // s.split(sep)

  /** Python's `s.split(sep)`: the pieces between separators, one more piece than
      there are separators; empty pieces are kept. */
  function Split(s: String, sep: char): (parts: seq<String>)
    ensures |parts| >= 1
    ensures forall k :: 0 <= k < |parts| ==> sep !in parts[k]
    decreases |s|
  {
    if s == [] then [[]]
    else
      var rest := Split(s[1..], sep);
      if s[0] == sep then [[]] + rest
      else [[s[0]] + rest[0]] + rest[1..]
  }

  /** Python's `sep.join(parts)`: the inverse of Split. */
  function Join(parts: seq<String>, sep: char): (s: String)
  {
    if parts == [] then []
    else if |parts| == 1 then parts[0]
    else parts[0] + [sep] + Join(parts[1..], sep)
  }

  /** Splitting and joining again gives back the text. */
  lemma {:induction false} JoinSplit(s: String, sep: char)
    ensures Join(Split(s, sep), sep) == s
    decreases |s|
  {
    if s != [] {
      var rest := Split(s[1..], sep);
      JoinSplit(s[1..], sep);
      if s[0] == sep {
        assert Split(s, sep) == [[]] + rest;
        assert Join([[]] + rest, sep) == [] + [sep] + Join(rest, sep);
        assert s == [sep] + s[1..];
      } else {
        var parts := Split(s, sep);
        assert parts == [[s[0]] + rest[0]] + rest[1..];
        if |rest| == 1 {
          assert Join(parts, sep) == [s[0]] + rest[0];
          assert s == [s[0]] + s[1..];
        } else {
          assert parts[1..] == rest[1..];
          assert Join(parts, sep) == [s[0]] + rest[0] + [sep] + Join(rest[1..], sep);
          assert Join(rest, sep) == rest[0] + [sep] + Join(rest[1..], sep);
          assert s == [s[0]] + s[1..];
        }
      }
    }
  }

  /** Text without the separator is a single piece. */
  lemma {:induction false} SplitNoSeparator(s: String, sep: char)
    requires sep !in s
    ensures Split(s, sep) == [s]
    decreases |s|
  {
    if s != [] {
      SplitNoSeparator(s[1..], sep);
      assert s == [s[0]] + s[1..];
    }
  }

  /** One step of Split, on a text that starts with the character `c`. */
  lemma SplitCons(c: char, t: String, sep: char)
    ensures Split([c] + t, sep) ==
      if c == sep then [[]] + Split(t, sep) else [[c] + Split(t, sep)[0]] + Split(t, sep)[1..]
  {
    assert ([c] + t)[0] == c && ([c] + t)[1..] == t;
  }

  /** Splitting `a + sep + b` splits `a` and `b` separately. */
  lemma {:induction false} SplitConcat(a: String, b: String, sep: char)
    ensures Split(a + [sep] + b, sep) == Split(a, sep) + Split(b, sep)
    decreases |a|
  {
    if a == [] {
      assert a + [sep] + b == [sep] + b;
      SplitCons(sep, b, sep);
    } else {
      var c, t := a[0], a[1..];
      SplitConcat(t, b, sep);
      SplitConcatStep(c, t, b, sep);
      assert a == [c] + t;
      assert a + [sep] + b == [c] + (t + [sep] + b);
    }
  }

  /** The inductive step of SplitConcat: one more character in front. */
  lemma SplitConcatStep(c: char, t: String, b: String, sep: char)
    requires Split(t + [sep] + b, sep) == Split(t, sep) + Split(b, sep)
    ensures Split([c] + (t + [sep] + b), sep) == Split([c] + t, sep) + Split(b, sep)
  {
    if c == sep {
      SplitConsSeparator(t + [sep] + b, sep);
      SplitConsSeparator(t, sep);
      assert [[]] + (Split(t, sep) + Split(b, sep)) == ([[]] + Split(t, sep)) + Split(b, sep);
    } else {
      SplitConsOther(c, t + [sep] + b, sep);
      SplitConsOther(c, t, sep);
      ConsPieceConcat(c, Split(t, sep), Split(b, sep));
    }
  }

  lemma SplitConsSeparator(t: String, sep: char)
    ensures Split([sep] + t, sep) == [[]] + Split(t, sep)
  {
    assert ([sep] + t)[0] == sep && ([sep] + t)[1..] == t;
  }

  lemma SplitConsOther(c: char, t: String, sep: char)
    requires c != sep
    ensures Split([c] + t, sep) == [[c] + Split(t, sep)[0]] + Split(t, sep)[1..]
  {
    assert ([c] + t)[0] == c && ([c] + t)[1..] == t;
  }

  /** Prepending a character to the first piece commutes with appending pieces. */
  lemma ConsPieceConcat(c: char, rt: seq<String>, rb: seq<String>)
    requires |rt| >= 1
    ensures [[c] + (rt + rb)[0]] + (rt + rb)[1..] == ([[c] + rt[0]] + rt[1..]) + rb
  {
    assert (rt + rb)[0] == rt[0];
    assert (rt + rb)[1..] == rt[1..] + rb;
  }

  /** Splitting the join of separator-free pieces gives back the pieces. */
  lemma {:induction false} SplitJoin(parts: seq<String>, sep: char)
    requires |parts| >= 1
    requires forall k :: 0 <= k < |parts| ==> sep !in parts[k]
    ensures Split(Join(parts, sep), sep) == parts
    decreases |parts|
  {
    if |parts| == 1 {
      SplitNoSeparator(parts[0], sep);
    } else {
      SplitJoin(parts[1..], sep);
      SplitNoSeparator(parts[0], sep);
      SplitConcat(parts[0], Join(parts[1..], sep), sep);
      assert parts == [parts[0]] + parts[1..];
    }
  }

  // ---------------------------------------------------------------------------
  // s.split()

  /** Whitespace as Python 2's `str.split()` sees it. */
  predicate IsSpace(c: char)
  {
    c == ' ' || c == '\t' || c == '\n' || c == '\r' || c == '\U{0B}' || c == '\U{0C}'
  }

  /** A field of `s.split()`: non-empty and free of whitespace. */
  predicate IsWord(w: String)
  {
    w != [] && forall i :: 0 <= i < |w| ==> !IsSpace(w[i])
  }

  /** Length of the longest whitespace-free prefix of `s`. */
  function WordLength(s: String): (n: nat)
    ensures n <= |s|
    ensures forall i :: 0 <= i < n ==> !IsSpace(s[i])
    ensures n == |s| || IsSpace(s[n])
  {
    if s == [] || IsSpace(s[0]) then 0 else 1 + WordLength(s[1..])
  }

  /** Python's `s.split()`: the maximal runs of non-whitespace, in order;
      leading, trailing and repeated whitespace produce no empty fields. */
  function Words(s: String): (ws: seq<String>)
    ensures forall k :: 0 <= k < |ws| ==> IsWord(ws[k])
    decreases |s|
  {
    if s == [] then []
    else if IsSpace(s[0]) then Words(s[1..])
    else
      var n := WordLength(s);
      [s[..n]] + Words(s[n..])
  }

  lemma {:induction false} WordLengthOfWord(w: String, t: String)
    requires IsWord(w)
    requires t == [] || IsSpace(t[0])
    ensures WordLength(w + t) == |w|
    decreases |w|
  {
    var s := w + t;
    assert s[0] == w[0];
    if |w| > 1 {
      assert s[1..] == w[1..] + t;
      WordLengthOfWord(w[1..], t);
    } else {
      assert s[1..] == t;
    }
  }

  /** Joining whitespace-free fields with single spaces and splitting again
      gives back the fields. */
  lemma {:induction false} WordsJoin(ws: seq<String>)
    requires forall k :: 0 <= k < |ws| ==> IsWord(ws[k])
    ensures Words(Join(ws, ' ')) == ws
    decreases |ws|
  {
    if |ws| == 1 {
      var w := ws[0];
      WordLengthOfWord(w, []);
      assert w + [] == w;
      assert w[..|w|] == w && w[|w|..] == [];
    } else if |ws| > 1 {
      var w := ws[0];
      var rest := Join(ws[1..], ' ');
      var s := w + ([' '] + rest);
      assert Join(ws, ' ') == s;
      WordLengthOfWord(w, [' '] + rest);
      assert s[..|w|] == w;
      assert s[|w|..] == [' '] + rest;
      assert Words([' '] + rest) == Words(rest);
      WordsJoin(ws[1..]);
      assert ws == [w] + ws[1..];
    }
  }

  lemma {:induction false} WordLengthAtSpace(a: String, c: char, b: String)
    requires IsSpace(c)
    ensures WordLength(a + [c] + b) == WordLength(a)
    decreases |a|
  {
    var s := a + [c] + b;
    if a == [] {
      assert s[0] == c;
    } else {
      assert s[0] == a[0];
      if !IsSpace(a[0]) {
        assert s[1..] == a[1..] + [c] + b;
        WordLengthAtSpace(a[1..], c, b);
      }
    }
  }

  /** A whitespace character separates fields: `split()` of `a + c + b` is the
      fields of `a` followed by those of `b`. So runs of whitespace act as one
      separator, and whitespace at either end produces no field. */
  lemma {:induction false} WordsAtSpace(a: String, c: char, b: String)
    requires IsSpace(c)
    ensures Words(a + [c] + b) == Words(a) + Words(b)
    decreases |a|
  {
    var s := a + [c] + b;
    if a == [] {
      assert s == [c] + b;
      assert s[1..] == b;
    } else if IsSpace(a[0]) {
      assert s[0] == a[0];
      assert s[1..] == a[1..] + [c] + b;
      WordsAtSpace(a[1..], c, b);
    } else {
      assert s[0] == a[0];
      WordLengthAtSpace(a, c, b);
      var m := WordLength(a);
      assert s[..m] == a[..m];
      assert s[m..] == a[m..] + [c] + b;
      WordsAtSpace(a[m..], c, b);
      assert [a[..m]] + (Words(a[m..]) + Words(b)) == ([a[..m]] + Words(a[m..])) + Words(b);
    }
  }

  // ---------------------------------------------------------------------------
  // float(field) on an RSS column

  predicate IsDigit(c: char)
  {
    '0' <= c <= '9'
  }

  predicate IsDecimal(s: String)
  {
    s != [] && forall i :: 0 <= i < |s| ==> IsDigit(s[i])
  }

  function DigitValue(c: char): (d: nat)
    requires IsDigit(c)
    ensures d < 10
  {
    (c as int) - ('0' as int)
  }

  function DigitChar(d: nat): (c: char)
    requires d < 10
    ensures IsDigit(c) && DigitValue(c) == d
  {
    (('0' as int) + d) as char
  }

  /** The number a string of decimal digits denotes, most significant digit first. */
  function DecimalValue(s: String): nat
    requires forall i :: 0 <= i < |s| ==> IsDigit(s[i])
  {
    if s == [] then 0 else 10 * DecimalValue(s[..|s| - 1]) + DigitValue(s[|s| - 1])
  }

  /** `float(field)` on the RSS column: a decimal integer, or None where Python
      would raise ValueError. A field without leading zeros is the printed form
      of the number read from it. */
  function ParseNat(s: String): (r: Option<nat>)
    ensures r.Some? <==> IsDecimal(s)
    ensures r.Some? && s[0] != '0' ==> ShowNat(r.value) == s
  {
    if IsDecimal(s) then
      (if s[0] != '0' then ShowDecimal(s); Some(DecimalValue(s)) else Some(DecimalValue(s)))
    else None
  }

  lemma DigitCharValue(c: char)
    requires IsDigit(c)
    ensures DigitChar(DigitValue(c)) == c
  {
  }

  /** A digit string without a leading zero denotes a positive number. */
  lemma {:induction false} DecimalPositive(s: String)
    requires IsDecimal(s) && s[0] != '0'
    ensures DecimalValue(s) >= 1
    decreases |s|
  {
    if |s| > 1 {
      var p := s[..|s| - 1];
      assert p[0] == s[0];
      DecimalPositive(p);
    }
  }

  /** Printing the number a digit string without a leading zero denotes gives
      back the string. */
  lemma {:induction false} ShowDecimal(s: String)
    requires IsDecimal(s) && s[0] != '0'
    ensures ShowNat(DecimalValue(s)) == s
    decreases |s|
  {
    var d := s[|s| - 1];
    DigitCharValue(d);
    if |s| == 1 {
      assert s[..0] == [];
      assert s == [d];
    } else {
      var p := s[..|s| - 1];
      assert p[0] == s[0];
      DecimalPositive(p);
      ShowDecimal(p);
      var v := DecimalValue(s);
      assert v == 10 * DecimalValue(p) + DigitValue(d);
      assert v / 10 == DecimalValue(p) && v % 10 == DigitValue(d);
      assert s == p + [d];
    }
  }

  /** A leading zero does not change the number a digit string denotes. */
  lemma {:induction false} DecimalLeadingZero(s: String)
    requires forall i :: 0 <= i < |s| ==> IsDigit(s[i])
    ensures DecimalValue(['0'] + s) == DecimalValue(s)
    decreases |s|
  {
    var z := ['0'] + s;
    if s == [] {
      assert z[..0] == [];
    } else {
      var p := s[..|s| - 1];
      assert z[..|z| - 1] == ['0'] + p;
      assert z[|z| - 1] == s[|s| - 1];
      DecimalLeadingZero(p);
    }
  }

  /** Like `float('007')`, a field with leading zeros reads as the same number
      as without them. */
  lemma ParseNatLeadingZero(s: String)
    requires IsDecimal(s)
    ensures ParseNat(['0'] + s) == ParseNat(s)
  {
    DecimalLeadingZero(s);
    assert IsDecimal(['0'] + s);
  }

  /** The decimal spelling of `n` that `ps` prints. */
  function ShowNat(n: nat): (s: String)
    ensures IsDecimal(s)
  {
    if n < 10 then [DigitChar(n)] else ShowNat(n / 10) + [DigitChar(n % 10)]
  }

  /** Parsing the printed spelling of a number gives the number back. */
  lemma {:induction false} ParseShowNat(n: nat)
    ensures ParseNat(ShowNat(n)) == Some(n)
  {
    var s := ShowNat(n);
    if n < 10 {
      assert s[..|s| - 1] == [];
      assert DecimalValue(s) == DigitValue(s[0]);
    } else {
      ParseShowNat(n / 10);
      assert s[..|s| - 1] == ShowNat(n / 10);
      assert DecimalValue(s) == 10 * DecimalValue(ShowNat(n / 10)) + DigitValue(DigitChar(n % 10));
    }
  }
}
