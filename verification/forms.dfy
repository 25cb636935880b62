/** The form validators of app/forms.py, under WTForms semantics: `DataRequired` strips Python
    whitespace and rejects falsy data (an empty string, a missing field, the integer 0);
    `IntegerField` parses its raw text as Python's `int()` reads ASCII digits; `NumberRange` is
    inclusive. */
module Forms {
  import opened Wrappers

  /** Python's `str.isspace()`. */
  predicate IsSpace(c: char)
  {
    || ('\t' <= c <= '\r')
    || ('\U{1C}' <= c <= '\U{20}')
    || c == '\U{85}' || c == '\U{A0}' || c == '\U{1680}'
    || ('\U{2000}' <= c <= '\U{200A}')
    || c == '\U{2028}' || c == '\U{2029}' || c == '\U{202F}' || c == '\U{205F}' || c == '\U{3000}'
  }

  /** The whitespace `int()` skips around a literal. CPython first turns every non-ASCII
      `isspace()` character into a space, then skips ASCII `\t\n\v\f\r` and space only, so the
      separators U+001C..U+001F, which `isspace()` accepts, are not skipped. */
  predicate IntSpace(c: char)
  {
    ('\t' <= c <= '\r') || c == ' ' || (c as int >= 128 && IsSpace(c))
  }

  /** Drop leading characters of the whitespace class `ws`. */
  function LStrip(s: string, ws: char -> bool): string
    decreases |s|
  {
    if |s| > 0 && ws(s[0]) then LStrip(s[1..], ws) else s
  }

  /** Drop trailing characters of the whitespace class `ws`. */
  function RStrip(s: string, ws: char -> bool): string
    decreases |s|
  {
    if |s| > 0 && ws(s[|s| - 1]) then RStrip(s[..|s| - 1], ws) else s
  }

  /** Python's `str.strip()`. */
  function Strip(s: string): string
  {
    RStrip(LStrip(s, IsSpace), IsSpace)
  }

  /** The strip `int()` applies before reading the sign and digits. */
  function IntStrip(s: string): string
  {
    RStrip(LStrip(s, IntSpace), IntSpace)
  }

  predicate Blank(s: string, ws: char -> bool)
  {
    forall i :: 0 <= i < |s| ==> ws(s[i])
  }

  lemma {:induction false} LStripEmptyIffBlank(s: string, ws: char -> bool)
    ensures LStrip(s, ws) == [] <==> Blank(s, ws)
    decreases |s|
  {
    if |s| > 0 && ws(s[0]) {
      LStripEmptyIffBlank(s[1..], ws);
      assert Blank(s, ws) <==> Blank(s[1..], ws) by {
        if Blank(s[1..], ws) {
          forall i | 0 <= i < |s| ensures ws(s[i]) {
            if i > 0 { assert s[i] == s[1..][i - 1]; }
          }
        }
      }
    } else if |s| > 0 {
      assert !ws(s[0]);
    }
  }

  lemma {:induction false} RStripKeepsNonBlank(s: string, ws: char -> bool)
    requires |s| > 0 && !ws(s[0])
    ensures RStrip(s, ws) != []
    decreases |s|
  {
    if ws(s[|s| - 1]) {
      assert |s| > 1;
      RStripKeepsNonBlank(s[..|s| - 1], ws);
    }
  }

  lemma {:induction false} LStripStopsAtNonSpace(s: string, ws: char -> bool)
    ensures LStrip(s, ws) != [] ==> !ws(LStrip(s, ws)[0])
    decreases |s|
  {
    if |s| > 0 && ws(s[0]) {
      LStripStopsAtNonSpace(s[1..], ws);
    }
  }

  /** A string strips to nothing exactly when every character of it is whitespace. */
  lemma StripEmptyIffBlank(s: string, ws: char -> bool)
    ensures RStrip(LStrip(s, ws), ws) == [] <==> Blank(s, ws)
  {
    LStripEmptyIffBlank(s, ws);
    var t := LStrip(s, ws);
    if t != [] {
      LStripStopsAtNonSpace(s, ws);
      RStripKeepsNonBlank(t, ws);
    }
  }

  /** Stripping only removes whitespace: every other character of `s` survives. */
  lemma {:induction false} LStripKeepsInk(s: string, ws: char -> bool)
    ensures forall i :: 0 <= i < |s| ==> ws(s[i]) || s[i] in LStrip(s, ws)
    decreases |s|
  {
    if |s| > 0 && ws(s[0]) {
      LStripKeepsInk(s[1..], ws);
      forall i | 0 < i < |s| ensures s[i] == s[1..][i - 1] { }
    }
  }

  lemma {:induction false} RStripKeepsInk(s: string, ws: char -> bool)
    ensures forall i :: 0 <= i < |s| ==> ws(s[i]) || s[i] in RStrip(s, ws)
    decreases |s|
  {
    if |s| > 0 && ws(s[|s| - 1]) {
      RStripKeepsInk(s[..|s| - 1], ws);
      forall i | 0 <= i < |s| - 1 ensures s[i] == s[..|s| - 1][i] { }
    }
  }

  /** `DataRequired` on a text field: present, and something other than whitespace. */
  predicate TextDataRequired(data: Option<string>)
  {
    data.Some? && Strip(data.value) != []
  }

  /** The request side of `validate_on_submit()`: a submitting method and a valid CSRF token. */
  datatype Submission = Submission(isSubmitted: bool, csrfValid: bool)

  /** `LoginForm().validate_on_submit()`. */
  predicate LoginValidates(sub: Submission, username: Option<string>)
  {
    sub.isSubmitted && sub.csrfValid && TextDataRequired(username)
  }

  /** A login is accepted exactly when it is a submission with a valid token and a username
      holding at least one non-whitespace character. */
  lemma LoginAcceptance(sub: Submission, username: Option<string>)
    ensures LoginValidates(sub, username) <==>
            sub.isSubmitted && sub.csrfValid && username.Some? && !Blank(username.value, IsSpace)
  {
    if username.Some? {
      StripEmptyIffBlank(username.value, IsSpace);
    }
  }

  // ---- Python int() on a string, base 10 ----

  predicate IsDigit(c: char)
  {
    '0' <= c <= '9'
  }

  /** Decimal digits with single underscores between them (PEP 515). */
  predicate WellFormedDigits(u: string)
  {
    && |u| > 0
    && IsDigit(u[0])
    && IsDigit(u[|u| - 1])
    && (forall i :: 0 <= i < |u| ==> IsDigit(u[i]) || u[i] == '_')
    && (forall i :: 0 <= i < |u| - 1 && u[i] == '_' ==> IsDigit(u[i + 1]))
  }

  /** The value of a digit string, underscores skipped. */
  function DigitsValue(u: string): nat
    decreases |u|
  {
    if |u| == 0 then 0
    else
      var c := u[|u| - 1];
      if IsDigit(c) then DigitsValue(u[..|u| - 1]) * 10 + (c as int - '0' as int)
      else DigitsValue(u[..|u| - 1])
  }

  /** A character that can appear in an `int()` literal once the whitespace is gone. */
  predicate IsLiteralChar(c: char)
  {
    IsDigit(c) || c == '_' || c == '+' || c == '-'
  }

  /** `int(s)`: surrounding whitespace, an optional sign, then digits; anything else raises
      ValueError, modelled as None. Text of whitespace alone raises, and so does any character
      that is neither `int()` whitespace nor part of a literal, wherever it stands. */
  function ParseInt(s: string): (r: Option<int>)
    ensures Blank(s, IntSpace) ==> r.None?
    ensures r.Some? ==> forall i :: 0 <= i < |s| ==> IntSpace(s[i]) || IsLiteralChar(s[i])
  {
    var t := IntStrip(s);
    LStripKeepsInk(s, IntSpace);
    RStripKeepsInk(LStrip(s, IntSpace), IntSpace);
    StripEmptyIffBlank(s, IntSpace);
    if |t| > 0 && (t[0] == '-' || t[0] == '+') then
      var v: int := DigitsValue(t[1..]);
      if WellFormedDigits(t[1..]) then
        assert forall j :: 0 < j < |t| ==> t[j] == t[1..][j - 1];
        assert forall j :: 0 <= j < |t| ==> IsLiteralChar(t[j]);
        Some(if t[0] == '-' then -v else v)
      else None
    else if WellFormedDigits(t) then
      assert forall j :: 0 <= j < |t| ==> IsLiteralChar(t[j]);
      Some(DigitsValue(t))
    else None
  }

  /** `str(n)` for n >= 0. */
  function ShowNat(n: nat): string
  {
    if n < 10 then [('0' as int + n) as char]
    else ShowNat(n / 10) + [('0' as int + n % 10) as char]
  }

  /** `str(n)`. */
  function ShowInt(n: int): string
  {
    if n < 0 then "-" + ShowNat(-n) else ShowNat(n)
  }

  lemma {:induction false} ShowNatDigits(n: nat)
    ensures |ShowNat(n)| > 0
    ensures forall i :: 0 <= i < |ShowNat(n)| ==> IsDigit(ShowNat(n)[i])
    ensures WellFormedDigits(ShowNat(n))
    ensures DigitsValue(ShowNat(n)) == n
  {
    if n >= 10 {
      ShowNatDigits(n / 10);
      var s := ShowNat(n);
      assert s[..|s| - 1] == ShowNat(n / 10);
    }
  }

  lemma NoSpaceAtEnds(s: string)
    requires |s| > 0 && !IntSpace(s[0]) && !IntSpace(s[|s| - 1])
    ensures IntStrip(s) == s
  {
  }

  /** Reading back what `str()` writes gives the number back. */
  lemma ParseShowRoundTrip(n: int)
    ensures ParseInt(ShowInt(n)) == Some(n)
  {
    var m := if n < 0 then -n else n;
    ShowNatDigits(m);
    var s := ShowInt(n);
    assert !IntSpace(s[0]) && !IntSpace(s[|s| - 1]);
    NoSpaceAtEnds(s);
    if n < 0 {
      assert s[1..] == ShowNat(m);
    } else {
      assert s[0] != '-' && s[0] != '+';
    }
  }

  /** What `IntegerField` passes to its validators: nothing when the field is missing or
      `int()` raised, otherwise the parsed integer. */
  function IntegerFieldData(raw: Option<string>): Option<int>
  {
    if raw.None? then None else ParseInt(raw.value)
  }

  /** The `grade` field's chain `[DataRequired(), NumberRange(min=0, max=12)]`. `DataRequired`
      stops the chain on falsy data, and 0 is falsy. */
  predicate GradeFieldValidates(raw: Option<string>)
  {
    var d := IntegerFieldData(raw);
    && d.Some?
    && d.value != 0
    && 0 <= d.value <= 12
  }

  /** `GradeForm().validate_on_submit()`. */
  predicate GradeValidates(sub: Submission, raw: Option<string>)
  {
    sub.isSubmitted && sub.csrfValid && GradeFieldValidates(raw)
  }

  /** A grade written as Python writes integers is accepted exactly for 1..12: 0 is lost to
      `DataRequired` despite `min=0`, and -1 and 13 fail `NumberRange`. */
  lemma GradeAcceptsOneToTwelve(n: int)
    ensures GradeFieldValidates(Some(ShowInt(n))) <==> 1 <= n <= 12
  {
    ParseShowRoundTrip(n);
  }

  /** `int()` tolerates surrounding whitespace, a plus sign, leading zeros and underscores
      between digits, so all of these spellings are accepted grades. */
  lemma GradeAcceptsPythonSpellings()
    ensures ParseInt(" 7 ") == Some(7) && GradeFieldValidates(Some(" 7 "))
    ensures ParseInt("1_2") == Some(12) && GradeFieldValidates(Some("1_2"))
    ensures ParseInt("+3") == Some(3) && GradeFieldValidates(Some("+3"))
    ensures ParseInt("012") == Some(12) && GradeFieldValidates(Some("012"))
  {
    assert LStrip(" 7 ", IntSpace) == LStrip("7 ", IntSpace) == "7 ";
    assert RStrip("7 ", IntSpace) == RStrip("7", IntSpace) == "7";
    assert "7"[..0] == "";
    assert IntStrip("1_2") == "1_2";
    assert "1_2"[..2] == "1_" && "1_"[..1] == "1" && "1"[..0] == "";
    assert IntStrip("+3") == "+3";
    assert "+3"[1..] == "3" && "3"[..0] == "";
    assert IntStrip("012") == "012";
    assert "012"[..2] == "01" && "01"[..1] == "0" && "0"[..0] == "";
  }

  /** Text that is not an integer is rejected, as is a missing field. */
  lemma GradeRejectsNonIntegers()
    ensures !GradeFieldValidates(None)
    ensures !GradeFieldValidates(Some(""))
    ensures !GradeFieldValidates(Some("x"))
    ensures !GradeFieldValidates(Some("1__2"))
  {
    assert IntStrip("") == "";
    assert IntStrip("x") == "x";
    assert IntStrip("1__2") == "1__2";
    assert "1__2"[1] == '_' && "1__2"[2] == '_';
  }

  /** `int()` does not skip the separators U+001C..U+001F that `str.strip()` removes, so "\x1c7"
      is text to `DataRequired` yet not a grade; a no-break space is skipped by both. */
  lemma IntSkipsLessThanStrip()
    ensures TextDataRequired(Some("\U{1C}7"))
    ensures ParseInt("\U{1C}7") == None && !GradeFieldValidates(Some("\U{1C}7"))
    ensures ParseInt("\U{A0}7") == Some(7) && GradeFieldValidates(Some("\U{A0}7"))
  {
  }
}
