/** Values and text conventions shared by the DHCP server and the
    configuration reader: the fixed-width integers of the C++ source,
    decimal and hexadecimal numerals as the C++ streams print and parse
    them, the comma tokenizer, trimming, and dotted-quad IPv4 addresses. */
module Common {

  /** An `uint8_t`. */
  type byte = x: int | 0 <= x < 256

  /** An `uint32_t`. */
  type uint32 = x: int | 0 <= x < 0x1_0000_0000

  datatype Option<T> = None | Some(value: T)

  function Zeros(n: nat): (r: seq<byte>)
    ensures |r| == n
    ensures forall i :: 0 <= i < n ==> r[i] == 0
  {
    seq(n, _ => 0)
  }

  /** The bytes of `s`, a `std::string` whose characters are bytes. */
  predicate IsByteString(s: string)
  {
    forall i :: 0 <= i < |s| ==> s[i] as int < 256
  }

  /** `std::string(p, len)`: the bytes as characters. */
  function Chars(b: seq<byte>): (s: string)
    ensures |s| == |b| && IsByteString(s)
    ensures forall i :: 0 <= i < |b| ==> s[i] as int == b[i]
  {
    seq(|b|, i requires 0 <= i < |b| => b[i] as char)
  }

  /** The bytes of a `std::string` whose characters are bytes. */
  function Bytes(s: string): (b: seq<byte>)
    requires IsByteString(s)
    ensures |b| == |s| && Chars(b) == s
  {
    seq(|s|, i requires 0 <= i < |s| => s[i] as int)
  }

  // ---------------------------------------------------------------------
  // Lexicographic order (`operator<` of `std::array` and `std::string`)
  // ---------------------------------------------------------------------

  /** `a` is not after `b` in lexicographic order (a prefix comes first). */
  predicate LexLe(a: seq<byte>, b: seq<byte>)
    decreases |a|
  {
    |a| == 0 || (|b| > 0 && (a[0] < b[0] || (a[0] == b[0] && LexLe(a[1..], b[1..]))))
  }

  lemma {:induction false} LexReflexive(a: seq<byte>)
    ensures LexLe(a, a)
    decreases |a|
  {
    if |a| > 0 {
      LexReflexive(a[1..]);
    }
  }

  lemma {:induction false} LexTotal(a: seq<byte>, b: seq<byte>)
    ensures LexLe(a, b) || LexLe(b, a)
    decreases |a|
  {
    if |a| > 0 && |b| > 0 && a[0] == b[0] {
      LexTotal(a[1..], b[1..]);
    }
  }

  lemma {:induction false} LexAntisymmetric(a: seq<byte>, b: seq<byte>)
    requires LexLe(a, b) && LexLe(b, a)
    ensures a == b
    decreases |a|
  {
    if |a| > 0 {
      LexAntisymmetric(a[1..], b[1..]);
      assert a == [a[0]] + a[1..] && b == [b[0]] + b[1..];
    }
  }

  lemma {:induction false} LexTransitive(a: seq<byte>, b: seq<byte>, c: seq<byte>)
    requires LexLe(a, b) && LexLe(b, c)
    ensures LexLe(a, c)
    decreases |a|
  {
    if |a| > 0 && a[0] == b[0] && b[0] == c[0] {
      LexTransitive(a[1..], b[1..], c[1..]);
    }
  }

  /** `k` comes first among `keys`. */
  predicate IsLeast(k: seq<byte>, keys: set<seq<byte>>)
  {
    k in keys && forall k' :: k' in keys ==> LexLe(k, k')
  }

  /** A non-empty finite set of keys has a first element, and only one. */
  lemma {:induction false} LeastExists(keys: set<seq<byte>>)
    requires keys != {}
    ensures exists k :: IsLeast(k, keys)
    decreases |keys|
  {
    var x :| x in keys;
    LexReflexive(x);
    if keys - {x} == {} {
      assert keys == {x};
      assert IsLeast(x, keys);
    } else {
      LeastExists(keys - {x});
      var m :| IsLeast(m, keys - {x});
      LexTotal(x, m);
      if LexLe(x, m) {
        forall k' | k' in keys ensures LexLe(x, k') {
          if k' != x {
            LexTransitive(x, m, k');
          }
        }
        assert IsLeast(x, keys);
      } else {
        assert IsLeast(m, keys);
      }
    }
  }

  lemma LeastUnique(k: seq<byte>, k': seq<byte>, keys: set<seq<byte>>)
    requires IsLeast(k, keys) && IsLeast(k', keys)
    ensures k == k'
  {
    LexAntisymmetric(k, k');
  }

  // ---------------------------------------------------------------------
  // Decimal numerals (`to_string`, `stoi`, `stoul`)
  // ---------------------------------------------------------------------

  predicate IsDigit(c: char)
  {
    '0' <= c <= '9'
  }

  predicate AllDigits(s: string)
  {
    forall i :: 0 <= i < |s| ==> IsDigit(s[i])
  }

  function DigitChar(d: int): (c: char)
    requires 0 <= d < 10
    ensures IsDigit(c)
  {
    ('0' as int + d) as char
  }

  /** `to_string(n)` for a non-negative `n`: decimal digits without a leading zero. */
  function Decimal(n: nat): (s: string)
    ensures |s| >= 1 && AllDigits(s)
    ensures s[0] == '0' ==> n == 0
    ensures n < 10 ==> |s| == 1
    ensures 10 <= n ==> s[0] != '0'
    decreases n
  {
    if n < 10 then [DigitChar(n)] else Decimal(n / 10) + [DigitChar(n % 10)]
  }

  /** The value of a string of decimal digits, as `stoi` and `stoul` read it. */
  function DigitsValue(s: string): nat
    requires AllDigits(s)
  {
    if s == [] then 0 else DigitsValue(s[..|s| - 1]) * 10 + (s[|s| - 1] as int - '0' as int)
  }

  /** A decimal numeral: at least one digit, and only digits. */
  predicate IsNumeral(s: string)
  {
    |s| >= 1 && AllDigits(s)
  }

  /** A numeral without a redundant leading zero, as `to_string` writes it. */
  predicate IsCanonicalNumeral(s: string)
  {
    IsNumeral(s) && (|s| > 1 ==> s[0] != '0')
  }

  lemma {:induction false} DecimalValue(n: nat)
    ensures DigitsValue(Decimal(n)) == n
    decreases n
  {
    if n >= 10 {
      var s := Decimal(n);
      assert s[..|s| - 1] == Decimal(n / 10);
      DecimalValue(n / 10);
    }
  }

  lemma {:induction false} LeadingDigitPositive(s: string)
    requires IsNumeral(s) && s[0] != '0'
    ensures DigitsValue(s) >= 1
    decreases |s|
  {
    if |s| > 1 {
      var t := s[..|s| - 1];
      assert t[0] == s[0];
      LeadingDigitPositive(t);
    }
  }

  /** `to_string` is the exact inverse of reading a canonical numeral. */
  lemma {:induction false} DecimalOfValue(s: string)
    requires IsCanonicalNumeral(s)
    ensures Decimal(DigitsValue(s)) == s
    decreases |s|
  {
    if |s| > 1 {
      var t := s[..|s| - 1];
      assert t[0] == s[0];
      LeadingDigitPositive(t);
      DecimalOfValue(t);
      assert s == t + [s[|s| - 1]];
    }
  }

  lemma DecimalCanonical(n: nat)
    ensures IsCanonicalNumeral(Decimal(n))
  {
  }

  lemma {:induction false} DecimalOfByte(n: nat)
    requires n < 256
    ensures 1 <= |Decimal(n)| <= 3
  {
    if n >= 10 {
      assert Decimal(n) == Decimal(n / 10) + [DigitChar(n % 10)];
      if n / 10 >= 10 {
        assert Decimal(n / 10) == Decimal(n / 100) + [DigitChar(n / 10 % 10)];
      }
    }
  }

  /** `to_string` of a signed integer. */
  function SignedDecimal(v: int): (s: string)
    ensures |s| >= 1
  {
    if v < 0 then "-" + Decimal(-v) else Decimal(v)
  }

  /** A numeral `stoi` reads without error: an optional minus sign and digits. */
  predicate IsSignedNumeral(s: string)
  {
    |s| >= 1 && (if s[0] == '-' then IsNumeral(s[1..]) else IsNumeral(s))
  }

  function SignedValue(s: string): int
    requires IsSignedNumeral(s)
  {
    if s[0] == '-' then -(DigitsValue(s[1..]) as int) else DigitsValue(s)
  }

  lemma SignedDecimalValue(v: int)
    ensures IsSignedNumeral(SignedDecimal(v))
    ensures SignedValue(SignedDecimal(v)) == v
  {
    if v < 0 {
      NegativeDecimalValue(v);
    } else {
      var d := Decimal(v);
      assert IsDigit(d[0]);
      DecimalValue(v);
    }
  }

  lemma NegativeDecimalValue(v: int)
    requires v < 0
    ensures IsSignedNumeral(SignedDecimal(v)) && SignedValue(SignedDecimal(v)) == v
  {
    var d := Decimal(-v);
    var s := SignedDecimal(v);
    assert s[0] == '-' && s[1..] == d;
    DecimalValue(-v);
  }

  // ---------------------------------------------------------------------
  // Hexadecimal (`hex << setw(2) << setfill('0')` and `stoi(s, 0, 16)`)
  // ---------------------------------------------------------------------

  predicate IsHexDigit(c: char)
  {
    '0' <= c <= '9' || 'a' <= c <= 'f' || 'A' <= c <= 'F'
  }

  function HexValue(c: char): (v: int)
    requires IsHexDigit(c)
    ensures 0 <= v < 16
  {
    if '0' <= c <= '9' then c as int - '0' as int
    else if 'a' <= c <= 'f' then c as int - 'a' as int + 10
    else c as int - 'A' as int + 10
  }

  /** A lower-case hex digit, as an `ostream` in `hex` mode writes it. */
  function HexChar(d: int): (c: char)
    requires 0 <= d < 16
    ensures IsHexDigit(c) && HexValue(c) == d
  {
    if d < 10 then ('0' as int + d) as char else ('a' as int + d - 10) as char
  }

  /** A byte as two hex digits, zero-filled to width 2. */
  function Hex2(b: byte): (s: string)
    ensures |s| == 2 && IsHexDigit(s[0]) && IsHexDigit(s[1])
    ensures HexValue(s[0]) * 16 + HexValue(s[1]) == b
  {
    [HexChar(b / 16), HexChar(b % 16)]
  }

  /** One or two characters given to `stoi(s, 0, 16)`: it reads the
      leading hex digits, and the first character must be one. */
  predicate IsHexChunk(s: string)
  {
    1 <= |s| <= 2 && IsHexDigit(s[0])
  }

  function HexChunkValue(s: string): (v: byte)
    requires IsHexChunk(s)
  {
    if |s| == 2 && IsHexDigit(s[1]) then HexValue(s[0]) * 16 + HexValue(s[1]) else HexValue(s[0])
  }

  /** Reading back two hex digits gives the byte. */
  lemma HexChunkOfHex2(b: byte)
    ensures IsHexChunk(Hex2(b)) && HexChunkValue(Hex2(b)) == b
  {
  }

  // ---------------------------------------------------------------------
  // Splitting, cutting and trimming
  // ---------------------------------------------------------------------

  /** The pieces of `s` between occurrences of `c`, empty pieces included
      (`getline` on `'\n'`, and the split of a dotted quad). */
  function Pieces(s: string, c: char): (r: seq<string>)
    ensures |r| >= 1
    ensures c !in s ==> r == [s]
    decreases |s|
  {
    if |s| == 0 then [""]
    else
      var rest := Pieces(s[1..], c);
      assert s == [s[0]] + s[1..];
      if s[0] == c then [""] + rest else [[s[0]] + rest[0]] + rest[1..]
  }

  lemma {:induction false} PiecesAppend(a: string, c: char, b: string)
    requires c !in a
    ensures Pieces(a + [c] + b, c) == [a] + Pieces(b, c)
    decreases |a|
  {
    if |a| == 0 {
      assert a + [c] + b == [c] + b;
      assert ([c] + b)[1..] == b;
    } else {
      assert (a + [c] + b)[1..] == a[1..] + [c] + b;
      PiecesAppend(a[1..], c, b);
      assert [a[0]] + a[1..] == a;
    }
  }

  /** The pieces glued back together with `c` between them. */
  function Join(parts: seq<string>, c: char): string
    requires |parts| >= 1
  {
    if |parts| == 1 then parts[0] else parts[0] + [c] + Join(parts[1..], c)
  }

  /** Splitting undoes joining when no part contains the separator. */
  lemma {:induction false} PiecesJoin(parts: seq<string>, c: char)
    requires |parts| >= 1
    requires forall i :: 0 <= i < |parts| ==> c !in parts[i]
    ensures Pieces(Join(parts, c), c) == parts
    decreases |parts|
  {
    if |parts| > 1 {
      PiecesAppend(parts[0], c, Join(parts[1..], c));
      PiecesJoin(parts[1..], c);
      assert [parts[0]] + parts[1..] == parts;
    }
  }

  /** The fields a `sregex_token_iterator` with submatch -1 yields for the
      single-character pattern `c`: the pieces between matches, where an
      empty piece after the last match is not produced. */
  function Tokens(s: string, c: char): (r: seq<string>)
    ensures |r| >= 1
  {
    var p := Pieces(s, c);
    if |p| > 1 && p[|p| - 1] == "" then p[..|p| - 1] else p
  }

  /** `s` cut at the first character that is in `stops` (`erase(find_first_of(stops))`). */
  function CutAt(s: string, stops: set<char>): (r: string)
    ensures |r| <= |s|
    decreases |s|
  {
    if |s| == 0 || s[0] in stops then "" else [s[0]] + CutAt(s[1..], stops)
  }

  /** The cut keeps the longest prefix free of `stops`. */
  lemma {:induction false} CutAtShape(s: string, stops: set<char>)
    ensures var r := CutAt(s, stops);
            && r == s[..|r|]
            && (forall i :: 0 <= i < |r| ==> r[i] !in stops)
            && (|r| < |s| ==> s[|r|] in stops)
    decreases |s|
  {
    if |s| > 0 && s[0] !in stops {
      CutAtShape(s[1..], stops);
    }
  }

  /** `s` with every trailing character of `ws` removed
      (`erase(find_last_not_of(ws) + 1)`). */
  function TrimRight(s: string, ws: set<char>): (r: string)
    ensures |r| <= |s|
    decreases |s|
  {
    if |s| > 0 && s[|s| - 1] in ws then TrimRight(s[..|s| - 1], ws) else s
  }

  /** Trimming on the right keeps a prefix and removes only characters of
      `ws`, up to the last one not in `ws`. */
  lemma {:induction false} TrimRightShape(s: string, ws: set<char>)
    ensures var r := TrimRight(s, ws);
            && r == s[..|r|]
            && (|r| > 0 ==> r[|r| - 1] !in ws)
            && (forall i :: |r| <= i < |s| ==> s[i] in ws)
    decreases |s|
  {
    if |s| > 0 && s[|s| - 1] in ws {
      TrimRightShape(s[..|s| - 1], ws);
    }
  }

  /** `s` with every leading character of `ws` removed
      (`erase(0, find_first_not_of(ws))`). */
  function TrimLeft(s: string, ws: set<char>): (r: string)
    ensures |r| <= |s|
    decreases |s|
  {
    if |s| > 0 && s[0] in ws then TrimLeft(s[1..], ws) else s
  }

  /** Trimming on the left keeps a suffix and removes only characters of
      `ws`, up to the first one not in `ws`. */
  lemma {:induction false} TrimLeftShape(s: string, ws: set<char>)
    ensures var r := TrimLeft(s, ws);
            && r == s[|s| - |r|..]
            && (|r| > 0 ==> r[0] !in ws)
            && (forall i :: 0 <= i < |s| - |r| ==> s[i] in ws)
    decreases |s|
  {
    if |s| > 0 && s[0] in ws {
      TrimLeftShape(s[1..], ws);
    }
  }

  lemma TrimLeftNoop(s: string, ws: set<char>)
    requires |s| > 0 ==> s[0] !in ws
    ensures TrimLeft(s, ws) == s
  {
  }

  lemma TrimRightNoop(s: string, ws: set<char>)
    requires |s| > 0 ==> s[|s| - 1] !in ws
    ensures TrimRight(s, ws) == s
  {
  }

  // ---------------------------------------------------------------------
  // Dotted-quad IPv4 addresses (`inet_ntop` / `inet_pton` for AF_INET)
  // ---------------------------------------------------------------------

  /** `inet_ntop(AF_INET, …)`: four address bytes in wire order as text. */
  function Ntop(a: seq<byte>): string
    requires |a| == 4
  {
    Join([Decimal(a[0]), Decimal(a[1]), Decimal(a[2]), Decimal(a[3])], '.')
  }

  /** One part of a dotted quad that `inet_pton` accepts: one to three
      digits, no leading zero, at most 255. */
  predicate IsOctet(p: string)
  {
    IsCanonicalNumeral(p) && |p| <= 3 && DigitsValue(p) < 256
  }

  /** `inet_pton(AF_INET, …)`: the four bytes of a dotted quad, or None when
      the text is not one. */
  function Pton(s: string): (r: Option<seq<byte>>)
    ensures r.Some? ==> |r.value| == 4
  {
    var p := Pieces(s, '.');
    if |p| == 4 && IsOctet(p[0]) && IsOctet(p[1]) && IsOctet(p[2]) && IsOctet(p[3])
    then Some([DigitsValue(p[0]), DigitsValue(p[1]), DigitsValue(p[2]), DigitsValue(p[3])])
    else None
  }

  /** The four bytes `inet_pton` leaves in a zero-filled destination: the
      address, or zeros when the text is not a dotted quad (it writes
      nothing then). */
  function PtonOrZero(s: string): (r: seq<byte>)
    ensures |r| == 4
  {
    match Pton(s)
    case Some(a) => a
    case None => Zeros(4)
  }

  lemma OctetOfDecimal(b: byte)
    ensures IsOctet(Decimal(b)) && DigitsValue(Decimal(b)) == b
    ensures '.' !in Decimal(b)
  {
    DecimalOfByte(b);
    DecimalValue(b);
  }

  /** `inet_pton` reads back what `inet_ntop` writes. */
  lemma PtonNtop(a: seq<byte>)
    requires |a| == 4
    ensures Pton(Ntop(a)) == Some(a)
  {
    var parts := [Decimal(a[0]), Decimal(a[1]), Decimal(a[2]), Decimal(a[3])];
    OctetOfDecimal(a[0]);
    OctetOfDecimal(a[1]);
    OctetOfDecimal(a[2]);
    OctetOfDecimal(a[3]);
    PiecesJoin(parts, '.');
    PtonOfParts(Ntop(a), a);
  }

  /** A text whose pieces are the decimal texts of four bytes is read as
      those bytes. */
  lemma PtonOfParts(s: string, a: seq<byte>)
    requires |a| == 4 && Pieces(s, '.') == [Decimal(a[0]), Decimal(a[1]), Decimal(a[2]), Decimal(a[3])]
    ensures Pton(s) == Some(a)
  {
    OctetOfDecimal(a[0]);
    OctetOfDecimal(a[1]);
    OctetOfDecimal(a[2]);
    OctetOfDecimal(a[3]);
    assert a == [a[0], a[1], a[2], a[3]];
  }

  /** `inet_pton` accepts only the text `inet_ntop` writes: the two are
      inverse bijections between four bytes and canonical dotted quads. */
  lemma NtopPton(s: string, a: seq<byte>)
    requires |a| == 4
    ensures Pton(s) == Some(a) <==> s == Ntop(a)
  {
    if s == Ntop(a) {
      PtonNtop(a);
    }
    if Pton(s) == Some(a) {
      NtopOfPton(s, a);
    }
  }

  /** Only the text `inet_ntop` writes reads as `a`. */
  lemma NtopOfPton(s: string, a: seq<byte>)
    requires |a| == 4 && Pton(s) == Some(a)
    ensures s == Ntop(a)
  {
    var p := Pieces(s, '.');
    assert |p| >= 1;
    forall i | 0 <= i < 4 ensures Decimal(a[i]) == p[i] {
      DecimalOfValue(p[i]);
    }
    assert forall i :: 0 <= i < |p| ==> '.' !in p[i] by {
      PiecesHaveNoSeparator(s, '.');
    }
    JoinPieces(s, '.');
    assert [Decimal(a[0]), Decimal(a[1]), Decimal(a[2]), Decimal(a[3])] == p;
  }

  lemma {:induction false} PiecesHaveNoSeparator(s: string, c: char)
    ensures forall i :: 0 <= i < |Pieces(s, c)| ==> c !in Pieces(s, c)[i]
    decreases |s|
  {
    if |s| > 0 {
      PiecesHaveNoSeparator(s[1..], c);
    }
  }

  /** Joining the pieces restores the text. */
  lemma {:induction false} JoinPieces(s: string, c: char)
    ensures Join(Pieces(s, c), c) == s
    decreases |s|
  {
    if |s| > 0 {
      var rest := Pieces(s[1..], c);
      JoinPieces(s[1..], c);
      if s[0] == c {
        assert Pieces(s, c) == [""] + rest;
        assert Pieces(s, c)[1..] == rest;
        assert s == [c] + s[1..];
      } else {
        var p := Pieces(s, c);
        assert p == [[s[0]] + rest[0]] + rest[1..];
        if |rest| == 1 {
          assert Join(rest, c) == rest[0];
        } else {
          assert Join(rest, c) == rest[0] + [c] + Join(rest[1..], c);
          assert p[1..] == rest[1..];
        }
        assert s == [s[0]] + s[1..];
      }
    }
  }
}
