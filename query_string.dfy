/**
 * The query-string layer under the timetable codec: percent-encoding as
 * `encodeURIComponent` and `querystring.escape` do it (RFC 3986 section
 * 2.1), its decoding, and the `key=value&...` framing of Node's
 * `querystring.stringify` and `querystring.parse`.
 */
module QueryString {
  import opened Wrappers
  import opened Strings
  import opened Objects
  import Seqs

  // ---------------------------------------------------------------------
  // Percent-encoding
  // ---------------------------------------------------------------------

  /** The characters both escapers leave as they are: RFC 3986 section 2.3 unreserved characters and `!'()*`. */
  predicate Unreserved(c: char)
  {
    ('A' <= c <= 'Z') || ('a' <= c <= 'z') || ('0' <= c <= '9')
    || c == '-' || c == '_' || c == '.' || c == '!' || c == '~' || c == '*' || c == '\'' || c == '(' || c == ')'
  }

  predicate IsAscii(c: char)
  {
    c as int < 128
  }

  /** A character that escaping keeps as it is. */
  predicate Kept(c: char)
  {
    Unreserved(c) || !IsAscii(c)
  }

  function HexDigit(d: nat): (c: char)
    requires d < 16
    ensures Unreserved(c)
  {
    "0123456789ABCDEF"[d]
  }

  predicate IsHex(c: char)
  {
    ('0' <= c <= '9') || ('A' <= c <= 'F') || ('a' <= c <= 'f')
  }

  function HexValue(c: char): (d: nat)
    requires IsHex(c)
    ensures d < 16
  {
    if '0' <= c <= '9' then c as int - '0' as int
    else if 'A' <= c <= 'F' then c as int - 'A' as int + 10
    else c as int - 'a' as int + 10
  }

  /** Reading back a written hexadecimal digit gives the digit. */
  lemma HexDigitValue(d: nat)
    requires d < 16
    ensures IsHex(HexDigit(d)) && HexValue(HexDigit(d)) == d
  {
    var digits := "0123456789ABCDEF";
    assert digits[0] == '0' && digits[1] == '1' && digits[2] == '2' && digits[3] == '3';
    assert digits[4] == '4' && digits[5] == '5' && digits[6] == '6' && digits[7] == '7';
    assert digits[8] == '8' && digits[9] == '9' && digits[10] == 'A' && digits[11] == 'B';
    assert digits[12] == 'C' && digits[13] == 'D' && digits[14] == 'E' && digits[15] == 'F';
  }

  /** One character: kept, or `%` and two upper-case hexadecimal digits of its code. */
  function EscapeChar(c: char): (r: string)
    ensures Kept(c) ==> r == [c]
    ensures !Kept(c) ==> (|r| == 3 && r[0] == '%' && IsHex(r[1]) && IsHex(r[2])
      && HexValue(r[1]) < 8 && 16 * HexValue(r[1]) + HexValue(r[2]) == c as int)
  {
    if Kept(c) then [c]
    else
      var hi, lo := c as int / 16, c as int % 16;
      HexDigitValue(hi);
      HexDigitValue(lo);
      ['%', HexDigit(hi), HexDigit(lo)]
  }

  /** `encodeURIComponent` / `querystring.escape`, character by character. */
  function Escape(s: string): (r: string)
    ensures |r| >= |s|
  {
    if |s| == 0 then "" else EscapeChar(s[0]) + Escape(s[1..])
  }

  /** Decoding `%XX` back to its character; anything else, including a bad escape, stays as it is. */
  function Unescape(s: string): string
  {
    if |s| == 0 then ""
    else if |s| >= 3 && s[0] == '%' && IsHex(s[1]) && IsHex(s[2]) && HexValue(s[1]) < 8 then
      [(16 * HexValue(s[1]) + HexValue(s[2])) as char] + Unescape(s[3..])
    else [s[0]] + Unescape(s[1..])
  }

  /** `querystring.parse` reads `+` as a space before decoding. */
  function PlusToSpace(s: string): (r: string)
    ensures |r| == |s|
    ensures forall i :: 0 <= i < |s| ==> r[i] == if s[i] == '+' then ' ' else s[i]
  {
    seq(|s|, i requires 0 <= i < |s| => if s[i] == '+' then ' ' else s[i])
  }

  /** How `querystring.parse` decodes a key or a value. */
  function Decode(s: string): string
  {
    Unescape(PlusToSpace(s))
  }

  /** Escaped text holds only kept characters and `%`: never a separator of either layer, a space or a `+`. */
  lemma {:induction false} EscapeOutput(s: string)
    ensures forall c :: c in Escape(s) ==> Kept(c) || c == '%'
    ensures forall c :: c in "&=:,+ " ==> c !in Escape(s)
  {
    if |s| > 0 {
      EscapeOutput(s[1..]);
      var e, rest := EscapeChar(s[0]), Escape(s[1..]);
      assert Escape(s) == e + rest;
      EscapeCharOutput(s[0]);
      forall c | c in e + rest
        ensures Kept(c) || c == '%'
      {
        assert c in e || c in rest;
      }
    }
    assert forall c :: c in "&=:,+ " ==> !Kept(c) && c != '%';
  }

  lemma EscapeCharOutput(c: char)
    ensures forall x :: x in EscapeChar(c) ==> Kept(x) || x == '%'
  {
    var r := EscapeChar(c);
    if !Kept(c) {
      assert r == [r[0], r[1], r[2]];
      assert Kept(r[1]) && Kept(r[2]);
    }
  }

  /** Escaping leaves a string unchanged exactly when every character is kept. */
  lemma {:induction false} EscapeIdentity(s: string)
    ensures Escape(s) == s <==> forall i :: 0 <= i < |s| ==> Kept(s[i])
  {
    if |s| > 0 {
      EscapeIdentity(s[1..]);
      if Kept(s[0]) {
        assert Escape(s) == [s[0]] + Escape(s[1..]);
        assert s == [s[0]] + s[1..];
        if Escape(s) == s {
          assert Escape(s[1..]) == Escape(s)[1..];
        }
        assert (forall i :: 0 <= i < |s| ==> Kept(s[i])) <==> (forall i :: 0 <= i < |s[1..]| ==> Kept(s[1..][i])) by {
          if forall i :: 0 <= i < |s[1..]| ==> Kept(s[1..][i]) {
            forall i | 0 <= i < |s|
              ensures Kept(s[i])
            {
              if i > 0 {
                assert s[i] == s[1..][i - 1];
              }
            }
          }
        }
      } else {
        assert |Escape(s)| >= 3 + |s| - 1;
      }
    }
  }

  /** Decoding undoes escaping. */
  lemma {:induction false} UnescapeEscape(s: string)
    ensures Unescape(Escape(s)) == s
  {
    if |s| > 0 {
      UnescapeEscape(s[1..]);
      UnescapeEscapeChar(s[0], Escape(s[1..]));
      assert Escape(s) == EscapeChar(s[0]) + Escape(s[1..]);
      assert s == [s[0]] + s[1..];
    }
  }

  /** Decoding reads one escaped character back and goes on with the rest. */
  lemma UnescapeEscapeChar(c: char, rest: string)
    ensures Unescape(EscapeChar(c) + rest) == [c] + Unescape(rest)
  {
    if Kept(c) {
      var t := [c] + rest;
      assert t[0] == c && t[1..] == rest;
      assert c != '%';
    } else {
      UnescapePercent(EscapeChar(c), rest);
    }
  }

  lemma UnescapePercent(e: string, rest: string)
    requires |e| == 3 && e[0] == '%' && IsHex(e[1]) && IsHex(e[2]) && HexValue(e[1]) < 8
    ensures Unescape(e + rest) == [(16 * HexValue(e[1]) + HexValue(e[2])) as char] + Unescape(rest)
  {
    var t := e + rest;
    assert t[..3] == e && t[3..] == rest;
  }



  /** A string without `+` is not changed by reading `+` as a space. */
  lemma PlusFree(s: string)
    requires '+' !in s
    ensures PlusToSpace(s) == s
  {
  }

  /** `querystring.parse` decodes an escaped key or value back to the original. */
  lemma DecodeEscape(s: string)
    ensures Decode(Escape(s)) == s
  {
    EscapeOutput(s);
    assert '+' in "&=:,+ ";
    PlusFree(Escape(s));
    UnescapeEscape(s);
  }

  // ---------------------------------------------------------------------
  // querystring.stringify
  // ---------------------------------------------------------------------

  /** One `key=value` piece, both sides escaped. */
  function Piece(key: string, value: string): string
  {
    Escape(key) + "=" + Escape(value)
  }

  /** The pieces of an object, in key order. */
  function Pieces(obj: seq<(string, string)>): (pieces: seq<string>)
    ensures |pieces| == |obj|
  {
    seq(|obj|, i requires 0 <= i < |obj| => Piece(obj[i].0, obj[i].1))
  }

  /** `querystring.stringify` of an object whose values are strings: the pieces in key order, joined by `&`. */
  function Stringify(obj: seq<(string, string)>): string
  {
    Join(Pieces(obj), "&")
  }

  // ---------------------------------------------------------------------
  // querystring.parse
  // ---------------------------------------------------------------------

  /** A parsed value: one string, or every value of a repeated key in order. */
  datatype Value = Str(s: string) | Arr(items: seq<string>)

  /** A piece split at its first `=`; a piece without `=` is all key, with an empty value. */
  function SplitAtEq(piece: string): (kv: (string, string))
    ensures '=' !in kv.0
    ensures '=' in piece ==> piece == kv.0 + "=" + kv.1
    ensures '=' !in piece ==> kv == (piece, "")
  {
    var i := IndexOf(piece, '=');
    if i < |piece| then
      assert piece == piece[..i] + "=" + piece[i + 1..];
      (piece[..i], piece[i + 1..])
    else
      assert piece[..i] == piece;
      (piece, "")
  }

  /** Adding a pair: a new key gets the string, a repeated one collects its values in order. */
  function AddKeyVal(obj: seq<(string, Value)>, key: string, value: string): seq<(string, Value)>
  {
    match Get(obj, key)
    case None => Put(obj, key, Str(value))
    case Some(existing) =>
      match existing
      case Str(first) => Put(obj, key, Arr([first, value]))
      case Arr(items) => Put(obj, key, Arr(items + [value]))
  }

  /** The pieces added one after another; empty pieces (as in `a=1&&b=2`) are skipped. */
  function AddPieces(obj: seq<(string, Value)>, pieces: seq<string>): seq<(string, Value)>
  {
    if |pieces| == 0 then obj
    else
      var before := AddPieces(obj, pieces[..|pieces| - 1]);
      var piece := pieces[|pieces| - 1];
      if piece == "" then before
      else
        var kv := SplitAtEq(piece);
        AddKeyVal(before, Decode(kv.0), Decode(kv.1))
  }

  /** `querystring.parse`: split on `&`, then add each non-empty piece. */
  function Parse(s: string): (obj: seq<(string, Value)>)
  {
    AddPieces([], Split(s, '&'))
  }

  /** Parsing keeps the keys distinct, and a key seen again turns into the list of its values. */
  lemma {:induction false} ParseDistinctKeys(obj: seq<(string, Value)>, pieces: seq<string>)
    requires DistinctKeys(obj)
    ensures DistinctKeys(AddPieces(obj, pieces))
  {
    if |pieces| > 0 {
      ParseDistinctKeys(obj, pieces[..|pieces| - 1]);
    }
  }

  /** A repeated key collects both values, in order. */
  lemma RepeatedKey()
    ensures Parse("a=1&a=2") == [("a", Arr(["1", "2"]))]
  {
    RepeatedKeyPieces();
    TwoPieces("a=1", "a=2");
    SameKeyTwice("a", "1", "2");
  }

  /** Two non-empty pieces are added one after the other. */
  lemma TwoPieces(p1: string, p2: string)
    requires p1 != "" && p2 != ""
    ensures var kv1, kv2 := SplitAtEq(p1), SplitAtEq(p2);
      AddPieces([], [p1, p2]) == AddKeyVal(AddKeyVal([], Decode(kv1.0), Decode(kv1.1)), Decode(kv2.0), Decode(kv2.1))
  {
    var none: seq<(string, Value)> := [];
    var kv1, kv2 := SplitAtEq(p1), SplitAtEq(p2);
    var one: seq<string> := [p1];
    var two: seq<string> := [p1, p2];
    assert one[..0] == [];
    assert AddPieces(none, one) == AddKeyVal(none, Decode(kv1.0), Decode(kv1.1));
    assert two[..1] == one;
    assert AddPieces(none, two) == AddKeyVal(AddPieces(none, one), Decode(kv2.0), Decode(kv2.1));
  }

  /** A key added twice to an empty object holds both values, in order. */
  lemma SameKeyTwice(key: string, v1: string, v2: string)
    ensures AddKeyVal(AddKeyVal([], key, v1), key, v2) == [(key, Arr([v1, v2]))]
  {
    var none: seq<(string, Value)> := [];
    PutNew(none, key, Str(v1));
    var first := [(key, Str(v1))];
    assert KeyIndex(first, key) == 0;
  }

  lemma RepeatedKeyPieces()
    ensures Split("a=1&a=2", '&') == ["a=1", "a=2"]
    ensures SplitAtEq("a=1") == ("a", "1") && SplitAtEq("a=2") == ("a", "2")
    ensures Decode("a") == "a" && Decode("1") == "1" && Decode("2") == "2"
  {
    SplitOnAmp();
    OneCharDecodes('a');
    OneCharDecodes('1');
    OneCharDecodes('2');
    assert IndexOf("a=1", '=') == 1 && IndexOf("a=2", '=') == 1;
    assert "a=1"[..1] == "a" && "a=1"[2..] == "1";
    assert "a=2"[..1] == "a" && "a=2"[2..] == "2";
  }

  lemma SplitOnAmp()
    ensures Split("a=1&a=2", '&') == ["a=1", "a=2"]
  {
    SplitJoin(["a=1", "a=2"], '&');
    assert Join(["a=1", "a=2"], "&") == "a=1&a=2";
  }

  lemma OneCharDecodes(c: char)
    requires c != '%' && c != '+'
    ensures Decode([c]) == [c]
  {
    assert PlusToSpace([c]) == [c];
    var e: string := [];
    assert [c][1..] == e;
    assert Unescape([c]) == [c] + Unescape(e);
    assert [c] + e == [c];
  }

  /** Every value of an object as a parsed single string. */
  function AsParsed(obj: seq<(string, string)>): (r: seq<(string, Value)>)
    ensures |r| == |obj|
  {
    seq(|obj|, i requires 0 <= i < |obj| => (obj[i].0, Str(obj[i].1)))
  }

  /** Adding pieces with keys not yet present appends them in order. */
  lemma {:induction false} AddFreshPieces(obj: seq<(string, string)>, n: nat)
    requires DistinctKeys(obj) && n <= |obj|
    ensures AddPieces([], Pieces(obj)[..n]) == AsParsed(obj)[..n]
  {
    var pieces := Pieces(obj);
    if n == 0 {
      assert pieces[..0] == [];
    } else {
      AddFreshPieces(obj, n - 1);
      assert pieces[..n][..n - 1] == pieces[..n - 1];
      FreshPieceStep(obj, n - 1);
    }
  }

  /** The next piece of an object with distinct keys appends its entry. */
  lemma FreshPieceStep(obj: seq<(string, string)>, n: nat)
    requires DistinctKeys(obj) && n < |obj|
    ensures AddPieces(AsParsed(obj)[..n], [Pieces(obj)[n]]) == AsParsed(obj)[..n + 1]
  {
    var before := AsParsed(obj)[..n];
    var k, v := obj[n].0, obj[n].1;
    PieceSplits(k, v);
    assert [Pieces(obj)[n]][..0] == [];
    assert forall i :: 0 <= i < n ==> Keys(before)[i] == obj[i].0;
    assert k !in Keys(before);
    PutNew(before, k, Str(v));
    Seqs.TakeOneMore(AsParsed(obj), n);
  }

  /** A piece is never empty and splits back into its decoded key and value. */
  lemma PieceSplits(key: string, value: string)
    ensures Piece(key, value) != ""
    ensures var kv := SplitAtEq(Piece(key, value)); Decode(kv.0) == key && Decode(kv.1) == value
  {
    EscapeOutput(key);
    assert '=' in "&=:,+ ";
    SplitAtFirstEq(Escape(key), Escape(value));
    DecodeEscape(key);
    DecodeEscape(value);
  }

  /** A piece whose key holds no `=` splits back into that key and its value. */
  lemma SplitAtFirstEq(k: string, v: string)
    requires '=' !in k
    ensures SplitAtEq(k + "=" + v) == (k, v)
  {
    var p := k + "=" + v;
    assert p[|k|] == '=';
    assert p[..|k|] == k;
    assert p[|k| + 1..] == v;
    assert IndexOf(p, '=') == |k|;
  }


  /** No piece holds the `&` separator. */
  lemma PiecesFreeOfAmp(obj: seq<(string, string)>)
    ensures forall i :: 0 <= i < |obj| ==> '&' !in Pieces(obj)[i]
  {
    forall i | 0 <= i < |obj|
      ensures '&' !in Piece(obj[i].0, obj[i].1)
    {
      EscapeOutput(obj[i].0);
      EscapeOutput(obj[i].1);
      assert '&' in "&=:,+ ";
    }
  }

  /** Parsing the stringified object gives back every pair, in order, when its keys are distinct. */
  lemma ParseStringify(obj: seq<(string, string)>)
    requires DistinctKeys(obj)
    ensures Parse(Stringify(obj)) == AsParsed(obj)
  {
    var pieces := Pieces(obj);
    AddFreshPieces(obj, |obj|);
    assert pieces[..|obj|] == pieces;
    assert AsParsed(obj)[..|obj|] == AsParsed(obj);
    if |obj| == 0 {
      assert Split("", '&') == [""];
      assert [""][..0] == [];
    } else {
      PiecesFreeOfAmp(obj);
      SplitJoin(pieces, '&');
    }
  }
}
