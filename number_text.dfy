/** The text side of the demo: splitting the entry text on commas, stripping
    whitespace the way Python's str.strip() does, reading each piece as a
    decimal integer the way int() does, and writing integers back as decimal
    text the way str() does. */
module NumberText {
  import opened Outcomes

  /** Why the entry text was refused; each has its own message box in the GUI. */
  datatype ParseError =
    | NoNumbers      // "Please enter at least one number."
    | InvalidNumber  // int() raised ValueError on some piece

  /** The characters Python's str.isspace() accepts, which str.strip() removes:
      tab through carriage return, the four information separators, the
      blank, and the Unicode spaces and line and paragraph separators. */
  predicate IsSpace(c: char) {
    || c == ' '
    || ('\t' <= c <= '\r')
    || ('\U{001C}' <= c <= '\U{001F}')
    || c == '\U{0085}' || c == '\U{00A0}' || c == '\U{1680}'
    || ('\U{2000}' <= c <= '\U{200A}')
    || c == '\U{2028}' || c == '\U{2029}' || c == '\U{202F}'
    || c == '\U{205F}' || c == '\U{3000}'
  }

  predicate AllSpace(s: string) {
    forall k :: 0 <= k < |s| ==> IsSpace(s[k])
  }

  predicate IsDigit(c: char) {
    '0' <= c <= '9'
  }

  predicate AllDigits(s: string) {
    forall k :: 0 <= k < |s| ==> IsDigit(s[k])
  }

  // ---------------------------------------------------------------- split / join

  /** Concatenation regroups freely. */
  lemma AppendAssociates<T>(k: seq<T>, x: seq<T>, y: seq<T>)
    ensures k + (x + y) == (k + x) + y
  {
  }

  /** Python's sep.join(parts). */
  function JoinWith(parts: seq<string>, sep: string): string {
    if |parts| == 0 then []
    else if |parts| == 1 then parts[0]
    else parts[0] + sep + JoinWith(parts[1..], sep)
  }

  /** The total length of some texts. */
  function TotalLength(parts: seq<string>): nat {
    if parts == [] then 0 else |parts[0]| + TotalLength(parts[1..])
  }

  /** sep.join(parts) starts with the first part, ends with the last, and is
      as long as the parts together plus one separator between each two. */
  lemma {:induction false} JoinWithLayout(parts: seq<string>, sep: string)
    requires |parts| >= 1
    ensures var r := JoinWith(parts, sep);
      && |r| == TotalLength(parts) + (|parts| - 1) * |sep|
      && parts[0] <= r
      && |parts[|parts| - 1]| <= |r|
      && r[|r| - |parts[|parts| - 1]|..] == parts[|parts| - 1]
    decreases |parts|
  {
    if |parts| >= 2 {
      var rest := parts[1..];
      JoinWithLayout(rest, sep);
      assert rest[|rest| - 1] == parts[|parts| - 1];
      var r := JoinWith(parts, sep);
      assert r == parts[0] + sep + JoinWith(rest, sep);
      assert r[..|parts[0]|] == parts[0];
    }
  }

  /** Python's s.split(sep) for a one-character separator: the maximal runs
      between separators, always at least one (the empty text gives [""]). */
  function Split(s: string, sep: char): (pieces: seq<string>)
    ensures |pieces| >= 1
    ensures forall k :: 0 <= k < |pieces| ==> sep !in pieces[k]
    ensures JoinWith(pieces, [sep]) == s
  {
    if s == [] then [[]]
    else
      var rest := Split(s[1..], sep);
      if s[0] == sep then
        var r := [[]] + rest;
        assert r[1..] == rest;
        r
      else
        var r := [[s[0]] + rest[0]] + rest[1..];
        assert r[0] == [s[0]] + rest[0] && r[1..] == rest[1..];
        assert s == [s[0]] + s[1..];
        assert JoinWith(r, [sep]) == s by {
          if |rest| >= 2 {
            var tail := [sep] + JoinWith(rest[1..], [sep]);
            assert s[1..] == rest[0] + tail;
            AppendAssociates([s[0]], rest[0], tail);
          }
        }
        r
  }

  /** Splitting after a separator-free first piece. */
  lemma {:induction false} SplitAfterPiece(a: string, sep: char, b: string)
    requires sep !in a
    ensures Split(a + [sep] + b, sep) == [a] + Split(b, sep)
    decreases |a|
  {
    if a == [] {
      assert ([] + [sep] + b)[1..] == b;
    } else {
      assert (a + [sep] + b)[1..] == a[1..] + [sep] + b;
      SplitAfterPiece(a[1..], sep, b);
      assert [a[0]] + a[1..] == a;
    }
  }

  /** A separator-free text is one piece. */
  lemma {:induction false} SplitSinglePiece(a: string, sep: char)
    requires sep !in a
    ensures Split(a, sep) == [a]
    decreases |a|
  {
    if a != [] {
      SplitSinglePiece(a[1..], sep);
      assert [a[0]] + a[1..] == a;
    }
  }

  /** Split undoes JoinWith: joining separator-free pieces and splitting the
      result on the same separator gives the pieces back. */
  lemma {:induction false} SplitJoin(parts: seq<string>, sep: char)
    requires |parts| >= 1
    requires forall k :: 0 <= k < |parts| ==> sep !in parts[k]
    ensures Split(JoinWith(parts, [sep]), sep) == parts
    decreases |parts|
  {
    if |parts| == 1 {
      SplitSinglePiece(parts[0], sep);
    } else {
      SplitJoin(parts[1..], sep);
      SplitAfterPiece(parts[0], sep, JoinWith(parts[1..], [sep]));
      assert [parts[0]] + parts[1..] == parts;
    }
  }

  /** Every piece of an all-whitespace text is all whitespace. */
  lemma {:induction false} SplitOfBlank(s: string, sep: char)
    requires AllSpace(s)
    ensures forall k :: 0 <= k < |Split(s, sep)| ==> AllSpace(Split(s, sep)[k])
    decreases |s|
  {
    if s != [] {
      SplitOfBlank(s[1..], sep);
    }
  }

  // ---------------------------------------------------------------- strip

  /** Where the text left after removing leading whitespace from s[i..] starts. */
  function StripStart(s: string, i: nat): (start: nat)
    requires i <= |s|
    ensures i <= start <= |s|
    ensures forall k :: i <= k < start ==> IsSpace(s[k])
    ensures start < |s| ==> !IsSpace(s[start])
    decreases |s| - i
  {
    if i < |s| && IsSpace(s[i]) then StripStart(s, i + 1) else i
  }

  /** Where the text left after removing trailing whitespace from s[start..end] ends. */
  function StripEnd(s: string, start: nat, end: nat): (stop: nat)
    requires start <= end <= |s|
    ensures start <= stop <= end
    ensures forall k :: stop <= k < end ==> IsSpace(s[k])
    ensures stop > start ==> !IsSpace(s[stop - 1])
    decreases end
  {
    if end > start && IsSpace(s[end - 1]) then StripEnd(s, start, end - 1) else end
  }

  /** Python's s.strip(): the text between the leading and the trailing
      whitespace. It is a slice of the text with only whitespace cut off
      before and after it; it is empty exactly when the text is all
      whitespace, and otherwise starts and ends with a non-whitespace
      character. */
  function Strip(s: string): (r: string)
    ensures exists i, j :: 0 <= i <= j <= |s| && r == s[i..j] && AllSpace(s[..i]) && AllSpace(s[j..])
    ensures r == [] <==> AllSpace(s)
    ensures r == [] || (!IsSpace(r[0]) && !IsSpace(r[|r| - 1]))
  {
    var start := StripStart(s, 0);
    var stop := StripEnd(s, start, |s|);
    assert AllSpace(s[..start]) && AllSpace(s[stop..]);
    s[start..stop]
  }

  /** Stripping leaves a text alone when it already has no whitespace at its
      ends, and removes one leading blank in front of such a text. */
  lemma StripTrimmed(t: string)
    requires t != [] && !IsSpace(t[0]) && !IsSpace(t[|t| - 1])
    ensures Strip(t) == t
    ensures Strip([' '] + t) == t
  {
    assert ([' '] + t)[1..] == t;
  }

  // ---------------------------------------------------------------- integers

  function DigitValue(c: char): nat
    requires IsDigit(c)
  {
    (c as int) - ('0' as int)
  }

  function DigitChar(d: nat): (c: char)
    requires d < 10
    ensures IsDigit(c) && DigitValue(c) == d
  {
    ('0' as int + d) as char
  }

  /** The value of a string of decimal digits, most significant first. */
  function DigitsValue(ds: string): nat
    requires AllDigits(ds)
  {
    if ds == [] then 0 else DigitsValue(ds[..|ds| - 1]) * 10 + DigitValue(ds[|ds| - 1])
  }

  /** The shortest decimal digits of a natural number (str() of a non-negative
      int): "0" for zero, and otherwise no leading zero. */
  function NatDigits(n: nat): (ds: string)
    ensures |ds| >= 1 && AllDigits(ds)
    ensures DigitsValue(ds) == n
    ensures n == 0 ==> ds == "0"
    ensures n == 0 || ds[0] != '0'
  {
    if n < 10 then [DigitChar(n)]
    else
      var ds := NatDigits(n / 10) + [DigitChar(n % 10)];
      assert ds[..|ds| - 1] == NatDigits(n / 10);
      ds
  }

  /** Python's str() of an int, the canonical numeral: the digits without a
      leading zero ("0" for zero), behind a minus sign exactly for negatives,
      and never a '+'. The text is never empty, holds no comma, and has no
      whitespace at its ends. */
  function IntToString(n: int): (s: string)
    ensures |s| >= 1 && ',' !in s
    ensures !IsSpace(s[0]) && !IsSpace(s[|s| - 1])
    ensures n >= 0 ==> AllDigits(s) && (s == "0" || s[0] != '0')
    ensures n < 0 ==> |s| >= 2 && s[0] == '-' && AllDigits(s[1..]) && s[1] != '0'
  {
    var s := if n < 0 then ['-'] + NatDigits(-n) else NatDigits(n);
    SignOrDigitNotSpace(s[0]);
    SignOrDigitNotSpace(s[|s| - 1]);
    s
  }

  lemma SignOrDigitNotSpace(c: char)
    requires IsDigit(c) || c == '-'
    ensures !IsSpace(c)
  {
  }

  /** The texts int() accepts once stripped: an optional sign, then at least one digit. */
  predicate IsIntLiteral(t: string) {
    if |t| >= 1 && (t[0] == '+' || t[0] == '-') then |t| >= 2 && AllDigits(t[1..])
    else |t| >= 1 && AllDigits(t)
  }

  /** Python's int(t) on a stripped piece: None stands for the ValueError. */
  function ParseInt(t: string): (r: Option<int>)
    ensures r.Some? <==> IsIntLiteral(t)
  {
    if |t| >= 1 && (t[0] == '+' || t[0] == '-') then
      if |t| >= 2 && AllDigits(t[1..]) then
        var v: int := DigitsValue(t[1..]);
        Some(if t[0] == '-' then -v else v)
      else None
    else if |t| >= 1 && AllDigits(t) then Some(DigitsValue(t))
    else None
  }

  /** int() reads back what str() writes. */
  lemma ParseIntToString(n: int)
    ensures ParseInt(IntToString(n)) == Some(n)
  {
    if n < 0 {
      assert (['-'] + NatDigits(-n))[1..] == NatDigits(-n);
    }
  }

  /** A leading zero does not change the value of a digit string. */
  lemma {:induction false} DigitsValueLeadingZero(ds: string)
    requires AllDigits(ds)
    ensures AllDigits(['0'] + ds) && DigitsValue(['0'] + ds) == DigitsValue(ds)
    decreases |ds|
  {
    var z := ['0'] + ds;
    assert AllDigits(z) by {
      forall k | 0 <= k < |z| ensures IsDigit(z[k]) {
        if k > 0 { assert z[k] == ds[k - 1]; }
      }
    }
    if ds != [] {
      var init := ds[..|ds| - 1];
      DigitsValueLeadingZero(init);
      assert z[..|z| - 1] == ['0'] + init;
      assert z[|z| - 1] == ds[|ds| - 1];
    }
  }

  /** The value int() gives every literal: the digits' value, the same behind
      a '+', its negation behind a '-', and unchanged by a leading zero, so
      "+5" reads as 5, "007" as 7, "-0" as 0 and "-012" as -12. */
  lemma ParseIntValue(ds: string)
    requires |ds| >= 1 && AllDigits(ds)
    ensures ParseInt(ds) == Some(DigitsValue(ds))
    ensures ParseInt(['+'] + ds) == ParseInt(ds)
    ensures ParseInt(['-'] + ds) == Some(-(DigitsValue(ds) as int))
    ensures ParseInt(['0'] + ds) == ParseInt(ds)
  {
    ParseIntUnsigned(ds);
    ParseIntSigned('+', ds);
    ParseIntSigned('-', ds);
    DigitsValueLeadingZero(ds);
    ParseIntUnsigned(['0'] + ds);
  }

  lemma ParseIntUnsigned(ds: string)
    requires |ds| >= 1 && AllDigits(ds)
    ensures ParseInt(ds) == Some(DigitsValue(ds))
  {
    assert IsDigit(ds[0]);
  }

  lemma ParseIntSigned(sign: char, ds: string)
    requires sign == '+' || sign == '-'
    requires |ds| >= 1 && AllDigits(ds)
    ensures ParseInt([sign] + ds) == Some(if sign == '-' then -(DigitsValue(ds) as int) else DigitsValue(ds))
  {
    var t := [sign] + ds;
    assert t[0] == sign && t[1..] == ds;
  }

  /** The literals typed in the examples above, read by int(). */
  lemma ParseIntExamples()
    ensures ParseInt("+5") == Some(5)
    ensures ParseInt("007") == Some(7)
    ensures ParseInt("-0") == Some(0)
    ensures ParseInt("-012") == Some(-12)
  {
    ReadsPlusFive();
    ReadsZeroZeroSeven();
    ReadsMinusZero();
    ReadsMinusZeroTwelve();
  }

  lemma ReadsPlusFive()
    ensures ParseInt("+5") == Some(5)
  {
    ParseIntValue("5");
    assert "+5" == ['+'] + "5";
  }

  lemma ReadsZeroZeroSeven()
    ensures ParseInt("007") == Some(7)
  {
    ParseIntValue("7");
    assert "07" == ['0'] + "7";
    ParseIntValue("07");
    assert "007" == ['0'] + "07";
  }

  lemma ReadsMinusZero()
    ensures ParseInt("-0") == Some(0)
  {
    ParseIntValue("0");
    assert "-0" == ['-'] + "0";
  }

  lemma ReadsMinusZeroTwelve()
    ensures ParseInt("-012") == Some(-12)
  {
    assert DigitsValue("12") == 12 by {
      assert "12"[..1] == "1";
    }
    DigitsValueLeadingZero("12");
    assert "012" == ['0'] + "12";
    ParseIntValue("012");
    assert "-012" == ['-'] + "012";
  }

  // ---------------------------------------------------------------- the entry text

  /** The stripped pieces that are not blank, in order: the pieces the list
      comprehension hands to int(). */
  function NonBlank(pieces: seq<string>): seq<string> {
    if pieces == [] then []
    else
      var t := Strip(pieces[0]);
      if t == [] then NonBlank(pieces[1..]) else [t] + NonBlank(pieces[1..])
  }

  /** What the filter keeps: at most one text per piece, each a non-empty
      stripped piece, and nothing exactly when every piece is blank. That
      every non-blank piece is kept, in order, is NonBlankConcat. */
  lemma NonBlankKeeps(pieces: seq<string>)
    ensures |NonBlank(pieces)| <= |pieces|
    ensures forall t :: t in NonBlank(pieces) ==>
              t != [] && exists j :: 0 <= j < |pieces| && t == Strip(pieces[j])
    ensures NonBlank(pieces) == [] <==> forall j :: 0 <= j < |pieces| ==> Strip(pieces[j]) == []
  {
    NonBlankFromPieces(pieces);
    NonBlankEmpty(pieces);
  }

  /** The filter works piece by piece: filtering two runs of pieces one
      after the other gives the two filtered runs in that order, and a
      single piece is kept, stripped, exactly when it is not blank. The two
      facts together determine the filter, so every non-blank piece is
      kept and the kept pieces stay in order. */
  lemma NonBlankConcat(a: seq<string>, b: seq<string>)
    ensures NonBlank(a + b) == NonBlank(a) + NonBlank(b)
    ensures |a| == 1 ==> NonBlank(a) == if Strip(a[0]) == [] then [] else [Strip(a[0])]
  {
    NonBlankAppend(a, b);
    if |a| == 1 {
      assert a[1..] == [];
    }
  }

  lemma {:induction false} NonBlankAppend(a: seq<string>, b: seq<string>)
    ensures NonBlank(a + b) == NonBlank(a) + NonBlank(b)
    decreases |a|
  {
    if a == [] {
      assert a + b == b;
    } else {
      var ab := a + b;
      assert ab[0] == a[0] && ab[1..] == a[1..] + b;
      NonBlankAppend(a[1..], b);
      var t := Strip(a[0]);
      var k: seq<string> := if t == [] then [] else [t];
      var x, y := NonBlank(a[1..]), NonBlank(b);
      assert NonBlank(ab) == k + (x + y);
      assert NonBlank(a) == k + x;
      AppendAssociates(k, x, y);
    }
  }

  lemma {:induction false} NonBlankFromPieces(pieces: seq<string>)
    ensures |NonBlank(pieces)| <= |pieces|
    ensures forall t :: t in NonBlank(pieces) ==>
              t != [] && exists j :: 0 <= j < |pieces| && t == Strip(pieces[j])
    decreases |pieces|
  {
    if pieces != [] {
      var rest := pieces[1..];
      NonBlankFromPieces(rest);
      forall t | t in NonBlank(pieces)
        ensures t != [] && exists j :: 0 <= j < |pieces| && t == Strip(pieces[j])
      {
        if t == Strip(pieces[0]) {
          assert Strip(pieces[0]) != [];
        } else {
          assert t in NonBlank(rest);
          var j :| 0 <= j < |rest| && t == Strip(rest[j]);
          assert rest[j] == pieces[j + 1];
        }
      }
    }
  }

  lemma {:induction false} NonBlankEmpty(pieces: seq<string>)
    ensures NonBlank(pieces) == [] <==> forall j :: 0 <= j < |pieces| ==> Strip(pieces[j]) == []
    decreases |pieces|
  {
    if pieces != [] {
      var rest := pieces[1..];
      NonBlankEmpty(rest);
      if NonBlank(pieces) == [] {
        forall j | 0 <= j < |pieces| ensures Strip(pieces[j]) == [] {
          if j > 0 { assert pieces[j] == rest[j - 1]; }
        }
      }
    }
  }

  /** Collect what int() read from each piece: all the values, in order,
      when every piece was read, and InvalidNumber (the ValueError that ends
      the comprehension) when one was not. */
  function Gather(readings: seq<Option<int>>): (r: Result<seq<int>, ParseError>)
    ensures r.Ok? <==> forall k :: 0 <= k < |readings| ==> readings[k].Some?
    ensures r.Ok? ==>
              |r.value| == |readings| &&
              forall k :: 0 <= k < |readings| ==> readings[k] == Some(r.value[k])
    ensures r.Err? ==> r.error == InvalidNumber
  {
    if readings == [] then Ok([])
    else
      match readings[0]
      case None => Err(InvalidNumber)
      case Some(n) =>
        var rest := Gather(readings[1..]);
        match rest
        case Err(e) =>
          assert exists k :: 1 <= k < |readings| && readings[k].None? by {
            var j :| 0 <= j < |readings| - 1 && readings[1..][j].None?;
            assert readings[j + 1].None?;
          }
          Err(e)
        case Ok(ns) => Ok([n] + ns)
  }

  /** What int() makes of each non-blank stripped piece. */
  function Readings(ts: seq<string>): (rs: seq<Option<int>>)
    ensures |rs| == |ts| && forall k :: 0 <= k < |ts| ==> rs[k] == ParseInt(ts[k])
  {
    seq(|ts|, k requires 0 <= k < |ts| => ParseInt(ts[k]))
  }

  /** get_numbers: split the entry text on commas, keep the non-blank
      stripped pieces and read each as an integer. The text is refused with
      InvalidNumber when some such piece is not an integer, and otherwise
      with NoNumbers when there is no such piece; an accepted text gives one
      integer per non-blank piece, in order, so never an empty list. */
  function ParseNumbers(text: string): (r: Result<seq<int>, ParseError>)
    ensures var ts := NonBlank(Split(text, ','));
      && (r.Ok? <==> ts != [] && forall k :: 0 <= k < |ts| ==> IsIntLiteral(ts[k]))
      && (r == Err(InvalidNumber) <==> exists k :: 0 <= k < |ts| && !IsIntLiteral(ts[k]))
      && (r == Err(NoNumbers) <==> ts == [])
      && (r.Ok? ==> |r.value| == |ts| >= 1 &&
                    forall k :: 0 <= k < |ts| ==> ParseInt(ts[k]) == Some(r.value[k]))
  {
    var ts := NonBlank(Split(text, ','));
    match Gather(Readings(ts))
    case Err(e) => Err(e)
    case Ok(ns) => if ns == [] then Err(NoNumbers) else Ok(ns)
  }

  /** Empty or whitespace-only text is refused as holding no numbers. */
  lemma BlankTextRejected(text: string)
    requires AllSpace(text)
    ensures ParseNumbers(text) == Err(NoNumbers)
  {
    SplitOfBlank(text, ',');
    NonBlankOfBlank(Split(text, ','));
  }

  lemma {:induction false} NonBlankOfBlank(pieces: seq<string>)
    requires forall k :: 0 <= k < |pieces| ==> AllSpace(pieces[k])
    ensures NonBlank(pieces) == []
  {
    if pieces != [] {
      NonBlankOfBlank(pieces[1..]);
    }
  }

  // ---------------------------------------------------------------- generated text

  /** The text the random-data button writes into the entry: the integers
      written with str() and joined with ", ". */
  function GeneratedText(xs: seq<int>): string
    requires |xs| >= 1
  {
    JoinWith(Decimals(xs), ", ")
  }

  function Decimals(xs: seq<int>): (ss: seq<string>)
    ensures |ss| == |xs|
    ensures forall k :: 0 <= k < |xs| ==> ss[k] == IntToString(xs[k])
  {
    if xs == [] then [] else [IntToString(xs[0])] + Decimals(xs[1..])
  }

  /** The numbers written with str(), each behind one blank. */
  function BlankPrefixed(xs: seq<int>): (ss: seq<string>)
    ensures |ss| == |xs|
  {
    if xs == [] then [] else [[' '] + IntToString(xs[0])] + BlankPrefixed(xs[1..])
  }

  /** The pieces that splitting generated text on ',' produces: the first
      number as written, every later one behind the blank of ", ". */
  function Padded(xs: seq<int>): seq<string>
    requires |xs| >= 1
  {
    [IntToString(xs[0])] + BlankPrefixed(xs[1..])
  }

  lemma {:induction false} SplitGenerated(xs: seq<int>)
    requires |xs| >= 1
    ensures Split(GeneratedText(xs), ',') == Padded(xs)
    decreases |xs|
  {
    var a := IntToString(xs[0]);
    if |xs| == 1 {
      SplitSinglePiece(a, ',');
    } else {
      var tail := xs[1..];
      assert Decimals(xs)[1..] == Decimals(tail);
      var b := GeneratedText(tail);
      assert GeneratedText(xs) == a + [','] + ([' '] + b);
      SplitAfterPiece(a, ',', [' '] + b);
      SplitGenerated(tail);
      var sb := Split(b, ',');
      assert ([' '] + b)[1..] == b;
      assert Split([' '] + b, ',') == [[' '] + sb[0]] + sb[1..];
      assert [[' '] + sb[0]] + sb[1..] == BlankPrefixed(tail);
    }
  }

  lemma {:induction false} NonBlankBlankPrefixed(xs: seq<int>)
    ensures NonBlank(BlankPrefixed(xs)) == Decimals(xs)
    decreases |xs|
  {
    if xs != [] {
      var p := BlankPrefixed(xs);
      assert p[1..] == BlankPrefixed(xs[1..]);
      NonBlankBlankPrefixed(xs[1..]);
      assert Strip(p[0]) == IntToString(xs[0]) by {
        StripTrimmed(IntToString(xs[0]));
      }
      assert Decimals(xs) == [IntToString(xs[0])] + Decimals(xs[1..]);
    }
  }

  /** get_numbers accepts whatever the random-data button writes and gives
      back exactly the generated integers, in order. */
  lemma ParseGenerated(xs: seq<int>)
    requires |xs| >= 1
    ensures ParseNumbers(GeneratedText(xs)) == Ok(xs)
  {
    SplitGenerated(xs);
    var p := Padded(xs);
    assert p[1..] == BlankPrefixed(xs[1..]);
    NonBlankBlankPrefixed(xs[1..]);
    assert Strip(p[0]) == IntToString(xs[0]) by {
      StripTrimmed(IntToString(xs[0]));
    }
    var ts := NonBlank(p);
    assert ts == Decimals(xs) by {
      assert Decimals(xs) == [IntToString(xs[0])] + Decimals(xs[1..]);
    }
    forall k | 0 <= k < |xs| ensures ParseInt(ts[k]) == Some(xs[k]) {
      ParseIntToString(xs[k]);
    }
    var r := Gather(Readings(ts));
    assert r.Ok? && r.value == xs;
  }

  /** The text the entry starts with is read as the five numbers it shows. */
  lemma DefaultEntryAccepted()
    ensures ParseNumbers("10, 5, 100, 2, 8") == Ok([10, 5, 100, 2, 8])
  {
    DefaultEntryIsGenerated();
    ParseGenerated([10, 5, 100, 2, 8]);
  }

  lemma DefaultEntryIsGenerated()
    ensures GeneratedText([10, 5, 100, 2, 8]) == "10, 5, 100, 2, 8"
  {
    DefaultEntryDecimals();
    DefaultEntryJoined();
  }

  lemma DefaultEntryDecimals()
    ensures Decimals([10, 5, 100, 2, 8]) == ["10", "5", "100", "2", "8"]
  {
    assert NatDigits(1) == "1";
    assert NatDigits(10) == "10";
    assert NatDigits(100) == "100";
  }

  lemma DefaultEntryJoined()
    ensures JoinWith(["10", "5", "100", "2", "8"], ", ") == "10, 5, 100, 2, 8"
  {
    assert JoinWith(["8"], ", ") == "8";
    assert JoinWith(["2", "8"], ", ") == "2, 8" by {
      assert ["2", "8"][1..] == ["8"];
    }
    assert JoinWith(["100", "2", "8"], ", ") == "100, 2, 8" by {
      assert ["100", "2", "8"][1..] == ["2", "8"];
    }
    assert JoinWith(["5", "100", "2", "8"], ", ") == "5, 100, 2, 8" by {
      assert ["5", "100", "2", "8"][1..] == ["100", "2", "8"];
    }
    assert ["10", "5", "100", "2", "8"][1..] == ["5", "100", "2", "8"];
  }
}
