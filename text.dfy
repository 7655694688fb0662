/** Strings as the recorders build them: JavaScript's `String.prototype.split`
    and `Array.prototype.join` on a one-character separator, the decimal text
    JavaScript gives an integral number, and the text a `null` turns into when
    it is concatenated to a string. */
module Text {

  datatype Option<T> = None | Some(value: T)

  /** `parts.join(sep)`: the parts with one `sep` between neighbours. */
  function JoinWith(parts: seq<string>, sep: char): string
  {
    if |parts| == 0 then ""
    else if |parts| == 1 then parts[0]
    else parts[0] + [sep] + JoinWith(parts[1..], sep)
  }

  /** `s.split(sep)`: the maximal pieces of `s` that do not contain `sep`;
      as in JavaScript, the empty string splits into one empty piece. */
  function Split(s: string, sep: char): (r: seq<string>)
    ensures |r| > 0
    ensures forall k :: 0 <= k < |r| ==> sep !in r[k]
  {
    if |s| == 0 then [""]
    else
      var rest := Split(s[1..], sep);
      if s[0] == sep then [""] + rest
      else [[s[0]] + rest[0]] + rest[1..]
  }

  /** Piece `i` of a split, as a JavaScript array destructuring reads it: a
      missing piece is `undefined`, which becomes the text "undefined" when it
      is used as a string or as a property key. */
  function Field(pieces: seq<string>, i: nat): string
  {
    if i < |pieces| then pieces[i] else "undefined"
  }

  /** The string a possibly-null string contributes to a concatenation. */
  function StringOrNull(s: Option<string>): string
  {
    match s
    case Some(v) => v
    case None => "null"
  }

  lemma JoinWithCons(p: string, parts: seq<string>, sep: char)
    requires |parts| > 0
    ensures JoinWith([p] + parts, sep) == p + [sep] + JoinWith(parts, sep)
  {
    assert ([p] + parts)[1..] == parts;
  }

  /** Joining one more part at the end adds a separator and that part. */
  lemma {:induction false} JoinWithSnoc(parts: seq<string>, p: string, sep: char)
    requires |parts| > 0
    ensures JoinWith(parts + [p], sep) == JoinWith(parts, sep) + [sep] + p
  {
    if |parts| == 1 {
      assert parts + [p] == [parts[0]] + [p];
    } else {
      assert (parts + [p])[1..] == parts[1..] + [p];
      JoinWithSnoc(parts[1..], p, sep);
    }
  }

  /** The joined text of a prefix of the parts is a prefix of the joined text. */
  lemma {:induction false} JoinWithPrefix(parts: seq<string>, more: seq<string>, sep: char)
    requires |parts| > 0
    ensures JoinWith(parts, sep) <= JoinWith(parts + more, sep)
  {
    if |more| > 0 {
      var init := more[..|more| - 1];
      assert parts + more == (parts + init) + [more[|more| - 1]];
      JoinWithPrefix(parts, init, sep);
      JoinWithSnoc(parts + init, more[|more| - 1], sep);
    } else {
      assert parts + more == parts;
    }
  }

  /** A join of parts that avoid a character `c` avoids `c`, unless `c` is
      the separator itself. */
  lemma {:induction false} JoinWithAvoids(parts: seq<string>, sep: char, c: char)
    requires c != sep
    requires forall k :: 0 <= k < |parts| ==> c !in parts[k]
    ensures c !in JoinWith(parts, sep)
  {
    if |parts| > 1 {
      JoinWithAvoids(parts[1..], sep, c);
    }
  }

  lemma {:induction false} SplitNoSep(p: string, sep: char)
    requires sep !in p
    ensures Split(p, sep) == [p]
  {
    if |p| > 0 {
      SplitNoSep(p[1..], sep);
      assert [p[0]] + p[1..] == p;
    }
  }

  lemma {:induction false} SplitAfterPiece(p: string, t: string, sep: char)
    requires sep !in p
    ensures Split(p + [sep] + t, sep) == [p] + Split(t, sep)
  {
    var s := p + [sep] + t;
    if |p| == 0 {
      assert s[1..] == t;
    } else {
      assert s[1..] == p[1..] + [sep] + t;
      SplitAfterPiece(p[1..], t, sep);
      assert [p[0]] + p[1..] == p;
    }
  }

  /** Splitting a join recovers the parts when no part holds the separator. */
  lemma {:induction false} SplitJoin(parts: seq<string>, sep: char)
    requires |parts| > 0
    requires forall k :: 0 <= k < |parts| ==> sep !in parts[k]
    ensures Split(JoinWith(parts, sep), sep) == parts
  {
    if |parts| == 1 {
      SplitNoSep(parts[0], sep);
    } else {
      SplitJoin(parts[1..], sep);
      SplitAfterPiece(parts[0], JoinWith(parts[1..], sep), sep);
      assert [parts[0]] + parts[1..] == parts;
    }
  }

  /** Joining the pieces of a split gives back the string: together with
      SplitJoin, split and join are inverse on separator-free parts. */
  lemma {:induction false} JoinSplit(s: string, sep: char)
    ensures JoinWith(Split(s, sep), sep) == s
  {
    if |s| > 0 {
      var rest := Split(s[1..], sep);
      JoinSplit(s[1..], sep);
      if s[0] == sep {
        JoinWithCons("", rest, sep);
      } else {
        var r := Split(s, sep);
        assert r == [[s[0]] + rest[0]] + rest[1..];
        if |rest| == 1 {
          assert r == [[s[0]] + rest[0]];
        } else {
          JoinWithCons([s[0]] + rest[0], rest[1..], sep);
          JoinWithCons(rest[0], rest[1..], sep);
          assert [rest[0]] + rest[1..] == rest;
        }
        assert [s[0]] + s[1..] == s;
      }
    }
  }

  function DigitChar(d: nat): (c: char)
    requires d < 10
    ensures '0' <= c <= '9'
  {
    "0123456789"[d]
  }

  function DigitValue(c: char): nat
  {
    if '0' <= c <= '9' then (c as int - '0' as int) as nat else 0
  }

  lemma DigitRoundTrip(d: nat)
    requires d < 10
    ensures DigitValue(DigitChar(d)) == d
  {
    assert "0123456789"[d] as int == '0' as int + d;
  }

  predicate IsDigits(s: string)
  {
    forall k :: 0 <= k < |s| ==> '0' <= s[k] <= '9'
  }

  /** Decimal digits of `n`, most significant first, with no leading zero. */
  function NatToString(n: nat): (r: string)
    ensures |r| > 0
  {
    if n < 10 then [DigitChar(n)]
    else NatToString(n / 10) + [DigitChar(n % 10)]
  }

  /** The text is all digits, without a leading zero. */
  lemma {:induction false} NatToStringDigits(n: nat)
    ensures IsDigits(NatToString(n))
    ensures |NatToString(n)| > 1 ==> NatToString(n)[0] != '0'
  {
    if n >= 10 {
      NatToStringDigits(n / 10);
      assert NatToString(n)[0] == NatToString(n / 10)[0];
    }
  }

  /** How JavaScript writes an integral number: a minus sign for a negative
      number, then its decimal digits. */
  function IntToString(i: int): (r: string)
    ensures |r| > 0
  {
    if i < 0 then "-" + NatToString(-i) else NatToString(i)
  }

  /** The text is a minus sign exactly for a negative number, then digits. */
  lemma IntToStringChars(i: int)
    ensures forall k :: 0 <= k < |IntToString(i)| ==> IntToString(i)[k] == '-' || '0' <= IntToString(i)[k] <= '9'
    ensures i < 0 <==> IntToString(i)[0] == '-'
    ensures forall k :: (if i < 0 then 1 else 0) <= k < |IntToString(i)| ==> '0' <= IntToString(i)[k] <= '9'
  {
    NatToStringDigits(if i < 0 then -i else i);
  }

  function ParseNat(s: string): nat
  {
    if |s| == 0 then 0 else ParseNat(s[..|s| - 1]) * 10 + DigitValue(s[|s| - 1])
  }

  function ParseInt(s: string): int
  {
    if |s| > 0 && s[0] == '-' then -(ParseNat(s[1..]) as int) else ParseNat(s)
  }

  lemma {:induction false} ParseNatToString(n: nat)
    ensures ParseNat(NatToString(n)) == n
  {
    var s := NatToString(n);
    if n < 10 {
      DigitRoundTrip(n);
    } else {
      assert s[..|s| - 1] == NatToString(n / 10);
      ParseNatToString(n / 10);
      DigitRoundTrip(n % 10);
    }
  }

  /** Reading back the decimal text of an integer gives the integer. */
  lemma ParseIntToString(i: int)
    ensures ParseInt(IntToString(i)) == i
  {
    if i < 0 {
      ParseIntNegative(-i);
    } else {
      ParseIntNatural(i);
    }
  }

  lemma ParseIntNegative(n: nat)
    ensures ParseInt("-" + NatToString(n)) == -(n as int)
  {
    ParseNatToString(n);
    ParseIntSigned(NatToString(n));
  }

  lemma ParseIntNatural(n: nat)
    ensures ParseInt(NatToString(n)) == n
  {
    ParseNatToString(n);
    NatToStringDigits(n);
    ParseIntUnsigned(NatToString(n));
  }

  lemma ParseIntSigned(s: string)
    ensures ParseInt("-" + s) == -(ParseNat(s) as int)
  {
    assert ("-" + s)[1..] == s;
  }

  lemma ParseIntUnsigned(s: string)
    requires |s| > 0 && IsDigits(s)
    ensures ParseInt(s) == ParseNat(s)
  {
    assert '0' <= s[0] <= '9';
  }
}
