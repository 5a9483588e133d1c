/** Reading a list of UUIDs typed by a user: split on commas (empty pieces omitted), trim each
    piece of white space and newlines, parse each as the textual UUID form of section 3 of
    RFC 4122 (8-4-4-4-12 hexadecimal digits), and keep the pieces that parse. */
module UuidStrings {
  import opened Gatt
  import opened Text

  // ---------------------------------------------------------------- trimming

  /** The characters with the Unicode White_Space property: spaces and newlines. */
  predicate IsWhitespace(c: char) {
    var n := c as int;
    (0x09 <= n <= 0x0D) || n == 0x20 || n == 0x85 || n == 0xA0 || n == 0x1680
    || (0x2000 <= n <= 0x200A) || n == 0x2028 || n == 0x2029 || n == 0x202F
    || n == 0x205F || n == 0x3000
  }

  predicate AllWhitespace(s: string) {
    forall i :: 0 <= i < |s| ==> IsWhitespace(s[i])
  }

  function TrimLeading(s: string): (r: string)
    ensures |r| <= |s| && r == s[|s| - |r|..]
    ensures r != [] ==> !IsWhitespace(r[0])
  {
    if s != [] && IsWhitespace(s[0]) then TrimLeading(s[1..]) else s
  }

  function TrimTrailing(s: string): (r: string)
    ensures |r| <= |s| && r == s[..|r|]
    ensures r != [] ==> !IsWhitespace(r[|r| - 1])
  {
    if s != [] && IsWhitespace(s[|s| - 1]) then TrimTrailing(s[..|s| - 1]) else s
  }

  /** `s` without leading and trailing white space. */
  function Trim(s: string): string {
    TrimTrailing(TrimLeading(s))
  }

  lemma {:induction false} TrimLeadingPadded(pre: string, s: string)
    requires AllWhitespace(pre) && (s == [] || !IsWhitespace(s[0]))
    ensures TrimLeading(pre + s) == s
  {
    if pre == [] {
      assert pre + s == s;
    } else {
      assert (pre + s)[1..] == pre[1..] + s;
      TrimLeadingPadded(pre[1..], s);
    }
  }

  lemma {:induction false} TrimTrailingPadded(s: string, post: string)
    requires AllWhitespace(post) && (s == [] || !IsWhitespace(s[|s| - 1]))
    ensures TrimTrailing(s + post) == s
  {
    if post == [] {
      assert s + post == s;
    } else {
      var post' := post[..|post| - 1];
      assert (s + post)[..|s + post| - 1] == s + post';
      TrimTrailingPadded(s, post');
    }
  }

  /** White space around a piece that neither starts nor ends with white space is removed,
      and only that. */
  lemma TrimPadded(pre: string, s: string, post: string)
    requires AllWhitespace(pre) && AllWhitespace(post)
    requires s != [] && !IsWhitespace(s[0]) && !IsWhitespace(s[|s| - 1])
    ensures Trim(pre + s + post) == s
  {
    assert pre + s + post == pre + (s + post);
    TrimLeadingPadded(pre, s + post);
    TrimTrailingPadded(s, post);
  }

  // ---------------------------------------------------------------- splitting

  /** The pieces between commas, empty ones included. */
  function RawSplit(s: string): (r: seq<string>)
    ensures |r| >= 1
  {
    if s == [] then [""]
    else
      var rest := RawSplit(s[1..]);
      if s[0] == ',' then [""] + rest else [[s[0]] + rest[0]] + rest[1..]
  }

  /** Re-joining the raw pieces with commas gives back the string. */
  lemma {:induction false} RawSplitJoin(s: string)
    ensures Join(RawSplit(s), ",") == s
    ensures forall k :: 0 <= k < |RawSplit(s)| ==> ',' !in RawSplit(s)[k]
  {
    if s != [] {
      var rest := RawSplit(s[1..]);
      RawSplitJoin(s[1..]);
      if s[0] == ',' {
        assert ([""] + rest)[1..] == rest;
        assert s == [','] + s[1..];
      } else {
        var r := [[s[0]] + rest[0]] + rest[1..];
        if |rest| == 1 {
          assert s == [s[0]] + s[1..];
        } else {
          assert r[1..] == rest[1..];
          assert Join(rest, ",") == rest[0] + "," + Join(rest[1..], ",");
          assert s == [s[0]] + s[1..];
        }
        forall k | 0 <= k < |r| ensures ',' !in r[k] {
          if k > 0 {
            assert r[k] == rest[k];
          }
        }
      }
    }
  }

  /** A comma splits the raw pieces of its two sides apart. */
  lemma {:induction false} RawSplitAppend(a: string, b: string)
    ensures RawSplit(a + [','] + b) == RawSplit(a) + RawSplit(b)
  {
    var s := a + [','] + b;
    if a == [] {
      assert s == [','] + b;
      assert s[1..] == b;
    } else {
      assert s[0] == a[0];
      assert s[1..] == a[1..] + [','] + b;
      RawSplitAppend(a[1..], b);
      RawSplitStep(s, a, RawSplit(b));
    }
  }

  /** One unfolding of `RawSplit` on strings that agree on their first character and whose
      tails split as `RawSplit(a[1..]) + tail`. */
  lemma RawSplitStep(s: string, a: string, tail: seq<string>)
    requires s != [] && a != [] && s[0] == a[0]
    requires RawSplit(s[1..]) == RawSplit(a[1..]) + tail
    ensures RawSplit(s) == RawSplit(a) + tail
  {
    var ra := RawSplit(a[1..]);
    if a[0] != ',' {
      assert (ra + tail)[0] == ra[0];
      assert (ra + tail)[1..] == ra[1..] + tail;
    }
  }

  /** `pieces` without its empty pieces. */
  function NonEmpty(pieces: seq<string>): (r: seq<string>)
    ensures |r| <= |pieces|
    ensures forall k :: 0 <= k < |r| ==> r[k] != [] && r[k] in pieces
    ensures forall p :: p in r <==> p in pieces && p != []
  {
    if pieces == [] then []
    else if pieces[0] == [] then NonEmpty(pieces[1..])
    else [pieces[0]] + NonEmpty(pieces[1..])
  }

  /** A single piece is kept exactly when it is non-empty. */
  lemma NonEmptySingle(p: string)
    ensures NonEmpty([p]) == if p == [] then [] else [p]
  {
    assert [p][1..] == [];
  }

  lemma {:induction false} NonEmptyAppend(a: seq<string>, b: seq<string>)
    ensures NonEmpty(a + b) == NonEmpty(a) + NonEmpty(b)
  {
    if a == [] {
      assert a + b == b;
    } else {
      assert (a + b)[0] == a[0] && (a + b)[1..] == a[1..] + b;
      NonEmptyAppend(a[1..], b);
    }
  }

  /** The non-empty pieces between commas, in order. */
  function Split(s: string): seq<string> {
    NonEmpty(RawSplit(s))
  }

  /** Every piece is non-empty and holds no comma. */
  lemma SplitPieces(s: string)
    ensures forall k :: 0 <= k < |Split(s)| ==> Split(s)[k] != [] && ',' !in Split(s)[k]
  {
    RawSplitJoin(s);
  }

  /** A comma-free string is one raw piece. */
  lemma {:induction false} RawSplitNoComma(s: string)
    requires ',' !in s
    ensures RawSplit(s) == [s]
  {
    if s != [] {
      assert ',' !in s[1..] by {
        forall i | 0 <= i < |s[1..]| ensures s[1..][i] != ',' {
          assert s[1..][i] == s[i + 1];
        }
      }
      RawSplitNoComma(s[1..]);
      assert [s[0]] + s[1..] == s;
    }
  }

  // ---------------------------------------------------------------- parsing

  predicate IsHexDigit(c: char) {
    ('0' <= c <= '9') || ('a' <= c <= 'f') || ('A' <= c <= 'F')
  }

  function HexValue(c: char): (v: nat)
    requires IsHexDigit(c)
    ensures v < 16
  {
    if '0' <= c <= '9' then (c as int) - ('0' as int)
    else if 'a' <= c <= 'f' then (c as int) - ('a' as int) + 10
    else (c as int) - ('A' as int) + 10
  }

  /** The positions of the four hyphens of the 8-4-4-4-12 form. */
  predicate IsHyphenPosition(i: int) {
    i == 8 || i == 13 || i == 18 || i == 23
  }

  /** The 36-character textual form: hyphens at 8, 13, 18 and 23, hexadecimal digits elsewhere
      (either case). */
  predicate WellFormed(s: string) {
    |s| == 36
    && forall i :: 0 <= i < 36 ==> if IsHyphenPosition(i) then s[i] == '-' else IsHexDigit(s[i])
  }

  predicate AllHex(s: string) {
    forall i :: 0 <= i < |s| ==> IsHexDigit(s[i])
  }

  /** The bytes spelled by pairs of hexadecimal digits, high digit first. */
  function DecodeHex(digits: string): (r: Bytes)
    requires AllHex(digits) && |digits| % 2 == 0
    ensures |r| == |digits| / 2
  {
    if digits == [] then []
    else [(HexValue(digits[0]) * 16 + HexValue(digits[1])) as Byte] + DecodeHex(digits[2..])
  }

  /** The 32 hexadecimal digits of a well-formed string, hyphens left out. */
  /** Where the `i`-th hexadecimal digit sits in the 8-4-4-4-12 form. */
  function DigitPosition(i: nat): nat {
    if i < 8 then i else if i < 12 then i + 1 else if i < 16 then i + 2 else if i < 20 then i + 3 else i + 4
  }

  function HexDigits(s: string): (r: string)
    requires WellFormed(s)
    ensures |r| == 32 && AllHex(r)
    ensures forall i :: 0 <= i < 32 ==> r[i] == s[DigitPosition(i)]
  {
    var r := s[..8] + s[9..13] + s[14..18] + s[19..23] + s[24..];
    assert forall i :: 0 <= i < 32 ==> r[i] == s[DigitPosition(i)];
    r
  }

  /** The UUID a string denotes, if it is in the textual form. */
  function ParseUuid(s: string): (r: Option<Uuid>)
    ensures r.Some? <==> WellFormed(s)
    ensures r.Some? ==> |r.value.bytes| == 16
  {
    if WellFormed(s) then Some(Uuid(DecodeHex(HexDigits(s)))) else None
  }

  /** The lower-case hexadecimal digit of `n`. */
  function HexChar(n: nat): (c: char)
    requires n < 16
    ensures IsHexDigit(c) && HexValue(c) == n
  {
    if n < 10 then ('0' as int + n) as char else ('a' as int + n - 10) as char
  }

  /** Each byte as two lower-case hexadecimal digits. */
  function EncodeHex(b: Bytes): (r: string)
    ensures |r| == 2 * |b| && AllHex(r)
  {
    if b == [] then []
    else [HexChar(b[0] as int / 16), HexChar(b[0] as int % 16)] + EncodeHex(b[1..])
  }

  lemma {:induction false} EncodeHexAppend(a: Bytes, b: Bytes)
    ensures EncodeHex(a + b) == EncodeHex(a) + EncodeHex(b)
  {
    if a == [] {
      assert a + b == b;
    } else {
      assert (a + b)[0] == a[0] && (a + b)[1..] == a[1..] + b;
      EncodeHexAppend(a[1..], b);
    }
  }

  /** Decoding undoes encoding. */
  lemma {:induction false} DecodeEncodeHex(b: Bytes)
    ensures DecodeHex(EncodeHex(b)) == b
  {
    if b != [] {
      var e := EncodeHex(b);
      var hi, lo := b[0] as int / 16, b[0] as int % 16;
      assert e[0] == HexChar(hi) && e[1] == HexChar(lo);
      assert e[2..] == EncodeHex(b[1..]);
      DecodeEncodeHex(b[1..]);
      assert hi * 16 + lo == b[0] as int;
    }
  }

  /** The canonical (lower-case) textual form of a 128-bit UUID. */
  function FormatUuid(u: Uuid): (s: string)
    requires |u.bytes| == 16
    ensures |s| == 36
  {
    var b := u.bytes;
    EncodeHex(b[..4]) + "-" + EncodeHex(b[4..6]) + "-" + EncodeHex(b[6..8]) + "-"
      + EncodeHex(b[8..10]) + "-" + EncodeHex(b[10..])
  }

  /** The formatted form is well formed and its digits are the bytes' encoding. */
  lemma FormatUuidShape(u: Uuid)
    requires |u.bytes| == 16
    ensures WellFormed(FormatUuid(u))
    ensures HexDigits(FormatUuid(u)) == EncodeHex(u.bytes)
  {
    var b := u.bytes;
    var e1, e2, e3, e4, e5 := EncodeHex(b[..4]), EncodeHex(b[4..6]), EncodeHex(b[6..8]), EncodeHex(b[8..10]), EncodeHex(b[10..]);
    var s := FormatUuid(u);
    assert s == e1 + "-" + e2 + "-" + e3 + "-" + e4 + "-" + e5;
    assert s[..8] == e1 && s[9..13] == e2 && s[14..18] == e3 && s[19..23] == e4 && s[24..] == e5;
    assert s[8] == '-' && s[13] == '-' && s[18] == '-' && s[23] == '-';
    forall i | 0 <= i < 36 && !IsHyphenPosition(i) ensures IsHexDigit(s[i]) {
      if i < 8 { assert s[i] == e1[i]; }
      else if i < 13 { assert s[i] == e2[i - 9]; }
      else if i < 18 { assert s[i] == e3[i - 14]; }
      else if i < 23 { assert s[i] == e4[i - 19]; }
      else { assert s[i] == e5[i - 24]; }
    }
    assert b == b[..4] + b[4..6] + b[6..8] + b[8..10] + b[10..];
    EncodeHexAppend(b[..4] + b[4..6] + b[6..8] + b[8..10], b[10..]);
    EncodeHexAppend(b[..4] + b[4..6] + b[6..8], b[8..10]);
    EncodeHexAppend(b[..4] + b[4..6], b[6..8]);
    EncodeHexAppend(b[..4], b[4..6]);
  }

  /** Parsing the textual form of a 128-bit UUID gives that UUID back. */
  lemma ParseFormatRoundTrip(u: Uuid)
    requires |u.bytes| == 16
    ensures ParseUuid(FormatUuid(u)) == Some(u)
  {
    FormatUuidShape(u);
    DecodeEncodeHex(u.bytes);
  }

  /** `c` with a lower-case hexadecimal letter raised to upper case; anything else as is. */
  function UpperHex(c: char): char {
    if 'a' <= c <= 'f' then ((c as int) - 32) as char else c
  }

  /** `s` with its lower-case hexadecimal letters raised to upper case. */
  function UpperHexText(s: string): (r: string)
    ensures |r| == |s| && forall i :: 0 <= i < |s| ==> r[i] == UpperHex(s[i])
  {
    if s == [] then [] else [UpperHex(s[0])] + UpperHexText(s[1..])
  }

  /** Digit strings with the same digit values decode to the same bytes. */
  lemma {:induction false} DecodeHexCaseless(d: string, e: string)
    requires AllHex(d) && AllHex(e) && |d| == |e| && |d| % 2 == 0
    requires forall i :: 0 <= i < |d| ==> HexValue(d[i]) == HexValue(e[i])
    ensures DecodeHex(d) == DecodeHex(e)
  {
    if d != [] {
      assert HexValue(d[0]) == HexValue(e[0]) && HexValue(d[1]) == HexValue(e[1]);
      forall i | 0 <= i < |d[2..]| ensures HexValue(d[2..][i]) == HexValue(e[2..][i]) {
        assert d[2..][i] == d[i + 2] && e[2..][i] == e[i + 2];
      }
      DecodeHexCaseless(d[2..], e[2..]);
    }
  }

  /** Parsing ignores the case of the hexadecimal letters. */
  lemma ParseIgnoresCase(s: string)
    ensures ParseUuid(UpperHexText(s)) == ParseUuid(s)
  {
    var t := UpperHexText(s);
    if WellFormed(s) {
      assert WellFormed(t);
      var d, e := HexDigits(s), HexDigits(t);
      forall i | 0 <= i < 32 ensures HexValue(d[i]) == HexValue(e[i]) {
        assert e[i] == UpperHex(d[i]);
      }
      DecodeHexCaseless(d, e);
    } else if |s| == 36 {
      var i :| 0 <= i < 36 && !(if IsHyphenPosition(i) then s[i] == '-' else IsHexDigit(s[i]));
      assert t[i] == UpperHex(s[i]);
    }
  }

  /** The upper-case canonical text of a 128-bit UUID also parses back to it. */
  lemma ParseUpperFormatRoundTrip(u: Uuid)
    requires |u.bytes| == 16
    ensures ParseUuid(UpperHexText(FormatUuid(u))) == Some(u)
  {
    ParseIgnoresCase(FormatUuid(u));
    ParseFormatRoundTrip(u);
  }

  // ---------------------------------------------------------------- the whole list

  /** The UUIDs of the pieces that parse after trimming, in order; the rest are dropped. */
  function ParseAll(pieces: seq<string>): (r: seq<Uuid>)
    ensures |r| <= |pieces|
    ensures forall k :: 0 <= k < |r| ==> |r[k].bytes| == 16
  {
    if pieces == [] then []
    else
      var rest := ParseAll(pieces[1..]);
      var parsed := ParseUuid(Trim(pieces[0]));
      if parsed.Some? then [parsed.value] + rest else rest
  }

  /** A single piece yields its UUID when it parses after trimming, and nothing otherwise. */
  lemma ParseAllSingle(p: string)
    ensures ParseAll([p]) == match ParseUuid(Trim(p)) case Some(u) => [u] case None => []
  {
    assert [p][1..] == [];
    assert [p][0] == p;
  }

  /** Parsing works piece by piece, so the output keeps the order of the input. */
  lemma {:induction false} ParseAllAppend(a: seq<string>, b: seq<string>)
    ensures ParseAll(a + b) == ParseAll(a) + ParseAll(b)
  {
    if a == [] {
      assert a + b == b;
    } else {
      assert (a + b)[0] == a[0] && (a + b)[1..] == a[1..] + b;
      ParseAllAppend(a[1..], b);
    }
  }

  /** A piece that does not parse is dropped without affecting the others. */
  lemma DroppedPiece(a: seq<string>, p: string, b: seq<string>)
    requires ParseUuid(Trim(p)) == None
    ensures ParseAll(a + [p] + b) == ParseAll(a) + ParseAll(b)
  {
    ParseAllAppend(a + [p], b);
    ParseAllAppend(a, [p]);
    ParseAllSingle(p);
    var pa := ParseAll(a);
    assert ParseAll([p]) == [];
    assert ParseAll(a + [p]) == pa + [] == pa;
  }

  /** The UUID list a string denotes: none for the empty string, otherwise the list of the
      pieces that parse (possibly empty), never longer than the number of pieces. */
  function CbUuids(s: string): (r: Option<seq<Uuid>>)
    ensures r.None? <==> s == ""
    ensures r.Some? ==> |r.value| <= |Split(s)|
    ensures r.Some? ==> forall k :: 0 <= k < |r.value| ==> |r.value[k].bytes| == 16
  {
    if s == [] then None else Some(ParseAll(Split(s)))
  }

  /** Lists separated by a comma read as the concatenation of the two lists. */
  lemma CbUuidsConcat(a: string, b: string)
    requires a != [] && b != []
    ensures CbUuids(a + [','] + b) == Some(CbUuids(a).value + CbUuids(b).value)
  {
    RawSplitAppend(a, b);
    NonEmptyAppend(RawSplit(a), RawSplit(b));
    ParseAllAppend(Split(a), Split(b));
  }

  /** A UUID written in its textual form with any white space around it is read back. */
  lemma CbUuidsPadded(pre: string, u: Uuid, post: string)
    requires |u.bytes| == 16 && AllWhitespace(pre) && AllWhitespace(post)
    ensures CbUuids(pre + FormatUuid(u) + post) == Some([u])
  {
    var f := FormatUuid(u);
    var s := pre + f + post;
    FormatUuidShape(u);
    assert IsHexDigit(f[0]) && IsHexDigit(f[35]);
    assert ',' !in s by {
      forall i | 0 <= i < |s| ensures s[i] != ',' {
        if i < |pre| {
          assert s[i] == pre[i];
        } else if i < |pre| + 36 {
          assert s[i] == f[i - |pre|];
          assert IsHyphenPosition(i - |pre|) || IsHexDigit(f[i - |pre|]);
        } else {
          assert s[i] == post[i - |pre| - 36];
        }
      }
    }
    RawSplitNoComma(s);
    assert s != [];
    assert Split(s) == [s] by { assert [s][1..] == []; }
    TrimPadded(pre, f, post);
    ParseFormatRoundTrip(u);
    ParseAllSingle(s);
  }
}
