/** `detectVideoType` (custom.js:6-24): a mapping value names a file URL, a
    Vimeo video id, or nothing the script can play. */
module VideoType {
  import opened Text

  datatype Kind = Url | Vimeo | Unknown

  /** `t` begins with `prefix` once lower-cased, compared position by position. */
  predicate PrefixIgnoringCase(t: string, prefix: string) {
    |prefix| <= |t| && forall i :: 0 <= i < |prefix| ==> LowerChar(t[i]) == prefix[i]
  }

  /** The regular expression `^\d+$`: one or more ASCII digits and nothing else. */
  predicate IsDigitRun(t: string) {
    |t| > 0 && forall i :: 0 <= i < |t| ==> IsDigit(t[i])
  }

  /** Scans `s` for a non-digit. */
  function AllDigits(s: string): (b: bool)
    ensures b <==> forall i :: 0 <= i < |s| ==> IsDigit(s[i])
    decreases |s|
  {
    if |s| == 0 then true
    else
      assert forall i :: 1 <= i < |s| ==> s[i] == s[1..][i - 1];
      IsDigit(s[0]) && AllDigits(s[1..])
  }

  /** `detectVideoType`. */
  function Detect(value: string): Kind
  {
    var trimmed := Trim(value);
    var lower := Lower(trimmed);
    if StartsWith(lower, "https://") || StartsWith(lower, "http://") then
      Url
    else if |trimmed| > 0 && AllDigits(trimmed) then
      Vimeo
    else
      Unknown
  }

  /** The URL test comes first; a digit run is a Vimeo id; everything else,
      the empty string included, is unknown. Both tests see the trimmed value,
      and the URL test ignores case. */
  lemma DetectMeaning(value: string)
    ensures Detect(value) == Url <==>
      PrefixIgnoringCase(Trim(value), "https://") || PrefixIgnoringCase(Trim(value), "http://")
    ensures Detect(value) == Vimeo <==> IsDigitRun(Trim(value))
  {
    var trimmed := Trim(value);
    LowerPrefix(trimmed, "https://");
    LowerPrefix(trimmed, "http://");
    if IsDigitRun(trimmed) {
      assert !IsDigit(LowerChar(trimmed[0])) || LowerChar(trimmed[0]) != 'h';
    }
  }

  /** Starting with a lower-case prefix after `toLowerCase` is starting with it
      ignoring case. */
  lemma LowerPrefix(t: string, prefix: string)
    ensures StartsWith(Lower(t), prefix) <==> PrefixIgnoringCase(t, prefix)
  {
    if |prefix| <= |t| {
      assert forall i :: 0 <= i < |prefix| ==> Lower(t)[..|prefix|][i] == LowerChar(t[i]);
    }
  }

  /** Surrounding whitespace never changes the classification. */
  lemma DetectIgnoresSurroundingSpace(value: string)
    ensures Detect(Trim(value)) == Detect(value)
  {
    var t := Trim(value);
    assert Trim(t) == t by {
      TrimIdempotent(value);
    }
    DetectSameTrim(t, value);
  }

  /** `Detect` sees only the trimmed value. */
  lemma DetectSameTrim(a: string, b: string)
    requires Trim(a) == Trim(b)
    ensures Detect(a) == Detect(b)
  {
  }

  /** Digit strings are Vimeo ids. */
  lemma DetectDigitsExample()
    ensures Detect("123") == Vimeo
  {
    var t := "123";
    TrimFixed(t);
    DetectMeaning(t);
    assert IsDigit(t[0]) && IsDigit(t[1]) && IsDigit(t[2]);
  }

  /** The value is trimmed before it is classified. */
  lemma DetectPaddedDigitsExample()
    ensures Detect(" 42 ") == Vimeo
  {
    TrimPadded("42");
    assert [' '] + "42" + [' '] == " 42 ";
    assert IsDigit("42"[0]) && IsDigit("42"[1]);
    DetectMeaning(" 42 ");
  }

  lemma TrimPadded(w: string)
    requires |w| > 0 && !IsSpace(w[0]) && !IsSpace(w[|w| - 1])
    ensures Trim([' '] + w + [' ']) == w
  {
    var s := [' '] + w + [' '];
    assert s[1..] == w + [' '];
    assert LeadingSpaces(s[1..]) == 0;
    assert LeadingSpaces(s) == 1;
    var rest := s[1..];
    assert rest[..|rest| - 1] == w;
    assert TrailingSpaces(w) == 0;
    assert TrailingSpaces(rest) == 1;
  }

  /** A value that begins with a scheme, in any letter case, is a URL,
      whatever follows the scheme. */
  lemma DetectUrlScheme(scheme: string, rest: string)
    requires Lower(scheme) == "https://" || Lower(scheme) == "http://"
    ensures Detect(scheme + rest) == Url
  {
    var lower := Lower(scheme);
    assert !IsSpace(scheme[0]) by {
      assert LowerChar(scheme[0]) == lower[0] == 'h';
    }
    assert !IsSpace(scheme[|scheme| - 1]) by {
      assert LowerChar(scheme[|scheme| - 1]) == lower[|lower| - 1] == '/';
    }
    var a := scheme + rest;
    TrimKeepsHead(scheme, rest);
    var t := Trim(a);
    assert PrefixIgnoringCase(t, lower) by {
      assert forall i :: 0 <= i < |scheme| ==> t[i] == t[..|scheme|][i] == scheme[i];
    }
    DetectMeaning(a);
  }

  /** Either scheme, in any letter case, makes a URL, whatever follows it. */
  lemma DetectUrlExamples(rest: string)
    ensures Detect("https://" + rest) == Url
    ensures Detect("HTTP://" + rest) == Url
  {
    var https := "https://";
    var upper := "HTTP://";
    assert Lower(https) == https by {
      assert forall i :: 0 <= i < |https| ==> LowerChar(https[i]) == https[i];
    }
    assert Lower(upper) == "http://" by {
      assert LowerChar('H') == 'h' && LowerChar('T') == 't' && LowerChar('P') == 'p';
      assert LowerChar(':') == ':' && LowerChar('/') == '/';
    }
    DetectUrlScheme(https, rest);
    DetectUrlScheme(upper, rest);
  }

  /** A value whose trimmed text holds a non-digit is never a Vimeo id: it is
      a URL when it starts with a scheme, ignoring case, and unknown
      otherwise. */
  lemma DetectWordUnknown(value: string, i: nat)
    requires i < |Trim(value)| && !IsDigit(Trim(value)[i])
    ensures Detect(value) != Vimeo
    ensures Detect(value) == Unknown <==>
      !PrefixIgnoringCase(Trim(value), "https://") && !PrefixIgnoringCase(Trim(value), "http://")
  {
    DetectMeaning(value);
  }

  /** Letters, and digits mixed with letters, are unknown. */
  lemma DetectWordExamples()
    ensures Detect("abc") == Unknown
    ensures Detect("12a") == Unknown
  {
    var a := "abc";
    assert !IsSpace(a[0]) && !IsSpace(a[2]) && !IsDigit(a[0]);
    TrimFixed(a);
    DetectWordUnknown(a, 0);
    var b := "12a";
    assert !IsSpace(b[0]) && !IsSpace(b[2]) && !IsDigit(b[2]);
    TrimFixed(b);
    DetectWordUnknown(b, 2);
  }

  /** The empty string and other schemes are unknown. */
  lemma DetectOtherExamples()
    ensures Detect("") == Unknown
    ensures Detect("ftp://x") == Unknown
  {
    TrimFixed("");
    DetectMeaning("");
    var c := "ftp://x";
    TrimFixed(c);
    DetectMeaning(c);
    assert !IsDigit(c[0]) && LowerChar(c[0]) != 'h';
  }
}
