/**
  The `User` record's email handling: the `before_validation` callback that
  lower-cases and strips the address, the presence validation, and the
  `NORMALIZED_EMAIL` format `\A[^@\s]+@[^@\s]+\z`.
 */
module UserModel {
  import opened Optional
  import opened RubyStrings
  import opened ValidationMessages

  /** `email.to_s.downcase.strip`, the value the callback stores. */
  function NormalizeEmail(email: Option<string>): (r: string)
    ensures email.None? ==> r == ""
    ensures HasNoUpper(r)
    ensures r == [] || (!IsStripSpace(r[0]) && !IsStripSpace(r[|r| - 1]))
  {
    DowncaseHasNoUpper(ToS(email));
    StripKeepsNoUpper(Downcase(ToS(email)));
    Strip(Downcase(ToS(email)))
  }

  /** A run of `[^@\s]+`: non-empty, no `@`, no whitespace. */
  predicate IsAddressPart(s: string) {
    s != [] && forall i :: 0 <= i < |s| ==> s[i] != '@' && !IsRegexSpace(s[i])
  }

  /** `\A[^@\s]+@[^@\s]+\z`: the whole string is a part, an `@`, and a part. */
  predicate MatchesEmailFormat(s: string) {
    exists i :: 0 <= i < |s| && s[i] == '@' && IsAddressPart(s[..i]) && IsAddressPart(s[i + 1..])
  }

  /** The messages the email validators add, presence first, then format. */
  function EmailErrors(email: string): seq<string> {
    (if IsBlank(email) then [CantBeBlank] else [])
    + (if MatchesEmailFormat(email) then [] else [IsInvalid])
  }

  class User {
    var email: Option<string>
    var errors: seq<string>

    constructor (email: Option<string>)
      ensures this.email == email && errors == []
    {
      this.email := email;
      errors := [];
    }

    /** The `before_validation` callback. */
    method NormalizeBeforeValidation()
      modifies this`email
      ensures email == Some(NormalizeEmail(old(email)))
    {
      var s := ToS(email);
      s := Downcase(s);
      s := Strip(s);
      email := Some(s);
    }

    /** `valid?` on the email: clears the errors, runs the callback, then the validators. */
    method Validate() returns (valid: bool)
      modifies this
      ensures email == Some(NormalizeEmail(old(email)))
      ensures errors == EmailErrors(NormalizeEmail(old(email)))
      ensures valid <==> errors == []
    {
      errors := [];
      NormalizeBeforeValidation();
      var e := email.value;
      if IsBlank(e) {
        errors := errors + [CantBeBlank];
      }
      if !MatchesEmailFormat(e) {
        errors := errors + [IsInvalid];
      }
      valid := errors == [];
    }
  }

  /** Normalising twice gives what normalising once gives. */
  lemma NormalizeIsIdempotent(email: Option<string>)
    ensures NormalizeEmail(Some(NormalizeEmail(email))) == NormalizeEmail(email)
  {
    var n := NormalizeEmail(email);
    DowncaseOfLower(n);
    StripOfStripped(n);
  }

  /**
    Addresses that differ only in letter case and in whitespace around them
    normalise to the same value; case-insensitive uniqueness and the login
    lookup, which applies the same transform, rely on it.
   */
  lemma NormalizeIgnoresCaseAndPadding(x: string, y: string, p: string, q: string)
    requires Downcase(x) == Downcase(y)
    requires AllStripSpace(p) && AllStripSpace(q)
    ensures NormalizeEmail(Some(p + x + q)) == NormalizeEmail(Some(y))
  {
    DowncaseAppend(p + x, q);
    DowncaseAppend(p, x);
    DowncaseOfLower(p);
    DowncaseOfLower(q);
    StripIgnoresPadding(p, Downcase(x), q);
  }

  /** A space `blank?` counts that `strip` leaves in place, such as U+3000. */
  predicate IsWideSpace(c: char) {
    IsUnicodeSpace(c) && !IsStripSpace(c)
  }

  /**
    `strip` removes only ASCII whitespace and NUL, while `blank?` counts every
    Unicode space: an empty normalised email is blank, and a blank one that is
    not empty begins and ends with a space `strip` leaves in place.
   */
  lemma NormalizedBlankIsEmptyOrWideSpace(email: Option<string>)
    ensures NormalizeEmail(email) == "" ==> IsBlank(NormalizeEmail(email))
    ensures var r := NormalizeEmail(email);
      IsBlank(r) && r != "" ==> IsWideSpace(r[0]) && IsWideSpace(r[|r| - 1])
  {
  }

  /** An email of one ideographic space is kept by normalisation and gets both messages. */
  lemma IdeographicSpaceIsBlank()
    ensures NormalizeEmail(Some("\U{3000}")) == "\U{3000}"
    ensures IsBlank(NormalizeEmail(Some("\U{3000}")))
    ensures EmailErrors(NormalizeEmail(Some("\U{3000}"))) == [CantBeBlank, IsInvalid]
  {
    var s := "\U{3000}";
    assert Downcase(s) == s;
    assert TrimEnd(s) == s;
    assert TrimStart(s) == s;
    BlankEmailGetsBothErrors(Some(s));
  }

  /** A blank email fails both presence and format. */
  lemma BlankEmailGetsBothErrors(email: Option<string>)
    requires IsBlank(NormalizeEmail(email))
    ensures EmailErrors(NormalizeEmail(email)) == [CantBeBlank, IsInvalid]
  {
  }

  /** An email passes validation exactly when it matches the format. */
  lemma ValidIffFormat(email: string)
    ensures EmailErrors(email) == [] <==> MatchesEmailFormat(email)
  {
    if MatchesEmailFormat(email) {
      var i :| 0 <= i < |email| && email[i] == '@' && IsAddressPart(email[..i]) && IsAddressPart(email[i + 1..]);
      assert !IsRegexSpace(email[..i][0]);
    }
  }

  predicate HasNoRegexSpace(s: string) {
    forall i :: 0 <= i < |s| ==> !IsRegexSpace(s[i])
  }

  /** Splitting at position i: the `@` count of s is the counts on either side plus the one at i. */
  lemma CountAround(s: string, i: nat)
    requires i < |s|
    ensures Count(s, '@') == Count(s[..i], '@') + Count([s[i]], '@') + Count(s[i + 1..], '@')
  {
    CountAppend(s[..i], s[i..], '@');
    assert s[..i] + s[i..] == s;
    CountAppend([s[i]], s[i + 1..], '@');
    assert [s[i]] + s[i + 1..] == s[i..];
  }

  lemma FormatHasSingleInnerAt(s: string)
    requires MatchesEmailFormat(s)
    ensures Count(s, '@') == 1 && s[0] != '@' && s[|s| - 1] != '@' && HasNoRegexSpace(s)
  {
    var i :| 0 <= i < |s| && s[i] == '@' && IsAddressPart(s[..i]) && IsAddressPart(s[i + 1..]);
    CountAround(s, i);
    assert s[0] == s[..i][0];
    assert s[|s| - 1] == s[i + 1..][|s| - i - 2];
    forall k | 0 <= k < |s| ensures !IsRegexSpace(s[k]) {
      if k < i {
        assert s[k] == s[..i][k];
      } else if k > i {
        assert s[k] == s[i + 1..][k - i - 1];
      }
    }
  }

  lemma SingleInnerAtMatchesFormat(s: string)
    requires Count(s, '@') == 1 && s[0] != '@' && s[|s| - 1] != '@' && HasNoRegexSpace(s)
    ensures MatchesEmailFormat(s)
  {
    var i :| 0 <= i < |s| && s[i] == '@';
    CountAround(s, i);
    assert Count([s[i]], '@') == 1;
    assert '@' !in s[..i] && '@' !in s[i + 1..];
    assert IsAddressPart(s[..i]);
    assert IsAddressPart(s[i + 1..]);
  }

  /**
    The format accepts exactly the strings with one `@`, which is neither the
    first nor the last character, and no whitespace.
   */
  lemma FormatIffSingleInnerAt(s: string)
    ensures MatchesEmailFormat(s) <==>
      Count(s, '@') == 1 && s[0] != '@' && s[|s| - 1] != '@' && HasNoRegexSpace(s)
  {
    if MatchesEmailFormat(s) {
      FormatHasSingleInnerAt(s);
    }
    if Count(s, '@') == 1 && s[0] != '@' && s[|s| - 1] != '@' && HasNoRegexSpace(s) {
      SingleInnerAtMatchesFormat(s);
    }
  }
}
