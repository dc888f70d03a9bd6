/** Values that travel on the wire between the sender and the receiver of
    ftp.py: bytes, frames (the bytes of one send / one receive), the
    protocol's constants, the text codec used for names and sizes, and the
    decimal encoding of a file size. */
module Wire {

  newtype byte = x: int | 0 <= x < 256

  /** One send on the sender side, arriving as one receive on the other. */
  type Frame = seq<byte>

  /** A character the one-byte-per-character text codec can carry. */
  type Char8 = c: char | c as int < 256 witness 'a'

  /** File names, paths and decimal numbers. */
  type Text = seq<Char8>

  datatype Option<T> = None | Some(value: T)

  /** Size of every read: file chunks on the sender, receives on the receiver. */
  const BUFFER_SIZE: nat := 8192

  /** Destination folder of the receiver. */
  const FOLDER_RECV: Text := "ftp-recv"

  /** The acknowledgement b'OK'. */
  const OK: Frame := [79, 75]

  /** The name that ends a receiving session. */
  const EXIT: Text := "EXIT"

  /* ---------------- text codec ---------------- */

  /** `str.encode()` on text in the codec's character range. */
  function EncodeText(s: Text): (f: Frame)
    ensures |f| == |s|
  {
    if s == [] then [] else [s[0] as int as byte] + EncodeText(s[1..])
  }

  /** `bytes.decode()`: every byte becomes the character with that code. */
  function DecodeText(f: Frame): (s: Text)
    ensures |s| == |f|
  {
    if f == [] then [] else [f[0] as int as char] + DecodeText(f[1..])
  }

  /** Each character is sent as the byte with its code. */
  lemma {:induction false} EncodeTextAt(s: Text, i: nat)
    requires i < |s|
    ensures EncodeText(s)[i] as int == s[i] as int
    decreases |s|
  {
    if i > 0 {
      EncodeTextAt(s[1..], i - 1);
    }
  }

  /** Each byte is read back as the character with its code. */
  lemma {:induction false} DecodeTextAt(f: Frame, i: nat)
    requires i < |f|
    ensures DecodeText(f)[i] as int == f[i] as int
    decreases |f|
  {
    if i > 0 {
      DecodeTextAt(f[1..], i - 1);
    }
  }

  lemma DecodeEncode(s: Text)
    ensures DecodeText(EncodeText(s)) == s
  {
    var e := EncodeText(s);
    var d := DecodeText(e);
    forall i | 0 <= i < |s| ensures d[i] == s[i] {
      EncodeTextAt(s, i);
      DecodeTextAt(e, i);
    }
  }

  lemma EncodeDecode(f: Frame)
    ensures EncodeText(DecodeText(f)) == f
  {
    var d := DecodeText(f);
    var e := EncodeText(d);
    forall i | 0 <= i < |f| ensures e[i] == f[i] {
      DecodeTextAt(f, i);
      EncodeTextAt(d, i);
    }
  }

  /** Distinct texts are sent as distinct frames. */
  lemma EncodeTextInjective(s: Text, t: Text)
    requires EncodeText(s) == EncodeText(t)
    ensures s == t
  {
    DecodeEncode(s);
    DecodeEncode(t);
  }

  /* ---------------- decimal sizes ---------------- */

  predicate IsDigit(c: char) {
    '0' <= c <= '9'
  }

  predicate AllDigits(s: Text) {
    forall i :: 0 <= i < |s| ==> IsDigit(s[i])
  }

  /** A decimal string as `str` of a non-negative int writes it: digits only,
      no leading zero except for "0" itself. */
  predicate IsCanonicalDecimal(s: Text) {
    |s| > 0 && AllDigits(s) && (|s| > 1 ==> s[0] != '0')
  }

  function DigitChar(d: nat): (c: Char8)
    requires d < 10
    ensures IsDigit(c) && c as int - '0' as int == d
  {
    (48 + d) as char
  }

  /** The value of a digit string, most significant digit first. */
  function DigitsValue(s: Text): nat
    requires AllDigits(s)
  {
    if s == [] then 0
    else DigitsValue(s[..|s| - 1]) * 10 + (s[|s| - 1] as int - '0' as int)
  }

  /** `str(n)` for a non-negative int. */
  function ShowNat(n: nat): (s: Text)
    ensures IsCanonicalDecimal(s)
    decreases n
  {
    if n < 10 then [DigitChar(n)] else ShowNat(n / 10) + [DigitChar(n % 10)]
  }

  /** `int(s)` on a size frame: an optional '+' or '-' followed by a
      non-empty run of ASCII digits, leading zeros allowed; anything else is
      the ValueError the receiver dies of. */
  function ParseInt(s: Text): Option<int> {
    if |s| > 0 && (s[0] == '+' || s[0] == '-') then
      var digits := s[1..];
      if |digits| > 0 && AllDigits(digits) then
        Some(if s[0] == '-' then -(DigitsValue(digits) as int) else DigitsValue(digits))
      else None
    else if |s| > 0 && AllDigits(s) then Some(DigitsValue(s))
    else None
  }

  lemma {:induction false} DigitsValueShowNat(n: nat)
    ensures DigitsValue(ShowNat(n)) == n
    decreases n
  {
    if n >= 10 {
      var p := ShowNat(n / 10);
      var s := p + [DigitChar(n % 10)];
      assert s[..|s| - 1] == p;
      DigitsValueShowNat(n / 10);
    }
  }

  /** The size encoding round-trips: `int(str(n)) == n`. */
  lemma ParseShow(n: nat)
    ensures ParseInt(ShowNat(n)) == Some(n)
  {
    var s := ShowNat(n);
    assert IsDigit(s[0]);
    DigitsValueShowNat(n);
  }

  /** A minus sign in front of a positive decimal gives a negative size. */
  lemma ParseNegative(s: Text)
    requires |s| > 0 && AllDigits(s) && s[0] != '0'
    ensures var r := ParseInt("-" + s); r.Some? && r.value < 0 && r.value == -(DigitsValue(s) as int)
  {
    LeadingDigitBound(s);
    assert ("-" + s)[1..] == s;
  }

  lemma {:induction false} LeadingDigitBound(s: Text)
    requires |s| > 0 && AllDigits(s) && s[0] != '0'
    ensures DigitsValue(s) >= 1
    decreases |s|
  {
    if |s| > 1 {
      var p := s[..|s| - 1];
      assert p[0] == s[0];
      LeadingDigitBound(p);
    }
  }

  /** Conversely, `str(int(s)) == s` exactly for the canonical decimals. */
  lemma {:induction false} ShowParse(s: Text)
    requires IsCanonicalDecimal(s)
    ensures ShowNat(DigitsValue(s)) == s
    decreases |s|
  {
    var v := DigitsValue(s);
    var d := s[|s| - 1] as int - '0' as int;
    if |s| == 1 {
      assert s == [DigitChar(d)];
    } else {
      var p := s[..|s| - 1];
      assert p[0] == s[0];
      LeadingDigitBound(p);
      ShowParse(p);
      assert v / 10 == DigitsValue(p) && v % 10 == d;
      assert s == p + [DigitChar(d)];
    }
  }

  /* ---------------- frame sequences ---------------- */

  /** The bytes of a sequence of frames, in order. */
  function Flatten(frames: seq<Frame>): (f: Frame)
    ensures frames == [] ==> f == []
  {
    if frames == [] then [] else frames[0] + Flatten(frames[1..])
  }

  lemma {:induction false} FlattenAppend(a: seq<Frame>, b: seq<Frame>)
    ensures Flatten(a + b) == Flatten(a) + Flatten(b)
    decreases |a|
  {
    if a == [] {
      assert a + b == b;
    } else {
      assert (a + b)[0] == a[0];
      assert (a + b)[1..] == a[1..] + b;
      FlattenAppend(a[1..], b);
    }
  }
}
