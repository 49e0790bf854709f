/**
  What parsePasswordOTP does with the two keyboard layouts, and the worked
  examples: which input wins when a text fits both alphabets, how strtr()
  translates a Dvorak text back, and an example OTP.
*/
module OtpLayouts {
  import opened Wrappers
  import opened PhpStrings
  import opened OtpParser

  lemma TablesDistinct()
    ensures Distinct(Modhex) && Distinct(Dvorak)
  {
    ModhexDistinct();
    DvorakDistinct();
  }

  lemma ModhexDistinct()
    ensures Distinct(Modhex)
  {
  }

  lemma DvorakDistinct()
    ensures Distinct(Dvorak)
  {
  }

  /** The k-th modhex letter and the k-th Dvorak character are the same key. */
  lemma DvorakKey(k: nat)
    requires k < 16
    ensures TrChar(Modhex[k], Modhex, Dvorak) == Dvorak[k]
    ensures TrChar(Dvorak[k], Dvorak, Modhex) == Modhex[k]
  {
    TablesDistinct();
    TrCharAt(Modhex, Dvorak, k);
    TrCharAt(Dvorak, Modhex, k);
  }

  /**
    strtr() sends modhex to Dvorak and back: the Dvorak table inverts the
    modhex one. The tables are parameters equal to the two constants, as in
    OtpParser.TranslatedLetters, to keep the literals out of the proof.
  */
  lemma DvorakTranslationInverts(o: string, m: string, d: string)
    requires m == Modhex && d == Dvorak
    requires forall i :: 0 <= i < |o| ==> o[i] in m
    ensures StrTr(StrTr(o, m, d), d, m) == o
  {
    forall i | 0 <= i < |o|
      ensures TrChar(TrChar(o[i], m, d), d, m) == o[i]
    {
      var k :| 0 <= k < |Modhex| && Modhex[k] == o[i];
      DvorakKey(k);
    }
    StrTrPointwiseInverse(o, m, d);
  }

  /** The keys of a lower-case modhex OTP, typed on a Dvorak layout. */
  function TypedOnDvorak(o: string): (d: string)
    requires forall i :: 0 <= i < |o| ==> o[i] in Modhex
    ensures |d| == |o| && forall i :: 0 <= i < |d| ==> d[i] in Dvorak
  {
    var d := StrTr(o, Modhex, Dvorak);
    assert forall i :: 0 <= i < |o| ==> d[i] in Dvorak by {
      forall i | 0 <= i < |o|
        ensures d[i] in Dvorak
      {
        var k :| 0 <= k < |Modhex| && Modhex[k] == o[i];
        DvorakKey(k);
      }
    }
    d
  }

  /** b, e, r and t are the modhex letters whose Dvorak keys are not modhex. */
  lemma DvorakOnlyKey(c: char)
    requires c in "bert"
    ensures !InClass(TrChar(c, Modhex, Dvorak), Modhex)
  {
    if c == 'b' {
      DvorakKey(1);
    } else if c == 'e' {
      DvorakKey(3);
    } else if c == 'r' {
      DvorakKey(12);
    } else {
      DvorakKey(13);
    }
  }

  /**
    A lower-case modhex OTP typed on a Dvorak layout parses to the OTP itself,
    provided it holds one of b, e, r, t: their Dvorak keys x . p y are not
    modhex, so the modhex pattern does not take the input first.
  */
  lemma DvorakTypedOtp(o: string, j: nat)
    requires 32 <= |o| <= 48
    requires forall i :: 0 <= i < |o| ==> o[i] in Modhex
    requires j < |o| && o[j] in "bert"
    ensures ParsePasswordOtp(TypedOnDvorak(o)).Some?
    ensures ParsePasswordOtp(TypedOnDvorak(o)).value.otp == o
  {
    var d := TypedOnDvorak(o);
    LowerCaseInClass(d, Dvorak);
    DvorakOnlyKey(o[j]);
    assert !InClass(At(d, j), Modhex);
    ParseBareDvorak(d);
    DvorakTranslationInverts(o, Modhex, Dvorak);
  }

  /** The modhex letters other than b, e, r, t: their Dvorak keys are other modhex letters. */
  const SharedKeys: string := "cdfghijklnuv"

  lemma SharedKey(c: char)
    requires c in SharedKeys
    ensures TrChar(c, Modhex, Dvorak) in Modhex && TrChar(c, Modhex, Dvorak) != c
  {
    if c in "cdfghi" {
      SharedKeyFirst(c);
    } else {
      SharedKeySecond(c);
    }
  }

  lemma SharedKeyFirst(c: char)
    requires c in "cdfghi"
    ensures TrChar(c, Modhex, Dvorak) in Modhex && TrChar(c, Modhex, Dvorak) != c
  {
    if c == 'c' { DvorakKey(0); }
    else if c == 'd' { DvorakKey(2); }
    else if c == 'f' { DvorakKey(4); }
    else if c == 'g' { DvorakKey(5); }
    else if c == 'h' { DvorakKey(6); }
    else { DvorakKey(7); }
  }

  lemma SharedKeySecond(c: char)
    requires c in "jklnuv"
    ensures TrChar(c, Modhex, Dvorak) in Modhex && TrChar(c, Modhex, Dvorak) != c
  {
    if c == 'j' { DvorakKey(8); }
    else if c == 'k' { DvorakKey(9); }
    else if c == 'l' { DvorakKey(10); }
    else if c == 'n' { DvorakKey(11); }
    else if c == 'u' { DvorakKey(14); }
    else { DvorakKey(15); }
  }

  /**
    Without b, e, r or t the Dvorak keys of a modhex OTP are modhex letters too:
    the modhex pattern takes the text first and returns it as typed, so the
    result differs from the OTP (32 c's come back as 32 j's).
  */
  lemma DvorakAmbiguous(o: string)
    requires 32 <= |o| <= 48
    requires forall i :: 0 <= i < |o| ==> o[i] in SharedKeys
    ensures forall i :: 0 <= i < |o| ==> o[i] in Modhex
    ensures ParsePasswordOtp(TypedOnDvorak(o)) == Some(Groups("", TypedOnDvorak(o)))
    ensures TypedOnDvorak(o) != o
  {
    assert forall i :: 0 <= i < |o| ==> o[i] in Modhex;
    var d := TypedOnDvorak(o);
    forall i | 0 <= i < |d| ensures d[i] in Modhex && d[i] != o[i] {
      SharedKey(o[i]);
    }
    assert d[0] != o[0];
    LowerCaseInClass(d, Modhex);
    ParseBareModhex(d);
  }

  /**
    strtr() maps only the lower-case Dvorak characters: an OTP typed in upper
    case on the Dvorak keys X, P, Y comes back with its letters untranslated,
    so its otp is not modhex at all.
  */
  lemma DvorakUpperCaseUntranslated(text: string)
    requires 32 <= |text| <= 48
    requires forall i :: 0 <= i < |text| ==> text[i] in "XPY"
    ensures ParsePasswordOtp(text) == Some(Groups("", text))
  {
    UpperCaseKeys(text);
    ParseBareDvorak(text);
    StrTrOutside(text, Dvorak, Modhex);
  }

  /** X, P and Y are Dvorak keys in upper case, neither modhex nor in the strtr() table. */
  lemma UpperCaseKeys(text: string)
    requires 32 <= |text| <= 48
    requires forall i :: 0 <= i < |text| ==> text[i] in "XPY"
    ensures IsOtpText(text, Dvorak) && !AllInClass(text, Modhex)
    ensures forall i :: 0 <= i < |text| ==> text[i] !in Dvorak
  {
    forall i | 0 <= i < |text| ensures InClass(At(text, i), Dvorak) && text[i] !in Dvorak {
      UpperCaseKey(text[i]);
    }
    UpperCaseKey(text[0]);
    assert !InClass(At(text, 0), Modhex);
  }

  lemma UpperCaseKey(c: char)
    requires c in "XPY"
    ensures InClass(c, Dvorak) && !InClass(c, Modhex) && c !in Dvorak
  {
  }

  /** An OTP text given alone, in the modhex class, comes back verbatim. */
  lemma ParseBareModhex(text: string)
    requires IsOtpText(text, Modhex)
    ensures ParsePasswordOtp(text) == Some(Groups("", text))
  {
    ParseModhex(None, text, "");
    assert Compose(None, text) + "" == text;
  }

  /** An OTP text given alone, in the Dvorak class only, comes back translated. */
  lemma ParseBareDvorak(text: string)
    requires IsOtpText(text, Dvorak) && !AllInClass(text, Modhex)
    ensures ParsePasswordOtp(text) == Some(Groups("", text).(otp := StrTr(text, Dvorak, Modhex)))
  {
    ParseDvorak(None, text, "");
    assert Compose(None, text) + "" == text;
  }

  /** Lower-case letters of an alphabet are in its class. */
  lemma LowerCaseInClass(s: string, alphabet: string)
    requires IsAlphabet(alphabet)
    requires forall i :: 0 <= i < |s| ==> s[i] in alphabet
    ensures AllInClass(s, alphabet)
  {
    forall i | 0 <= i < |s| ensures InClass(s[i], alphabet) {
      assert !('A' <= s[i] <= 'Z');
    }
  }

  /** An OTP of a one-character public prefix and 32 ciphertext characters. */
  const ExampleText: string := "ccccccbdefghcbdefghcbdefghcbdefgh"

  lemma ExampleIsModhex(s: string)
    requires s == ExampleText
    ensures IsOtpText(s, Modhex)
  {
    assert forall i :: 0 <= i < |s| ==> s[i] in Modhex;
    LowerCaseInClass(s, Modhex);
  }

  /** The example OTP parses with no password, prefix "c" and a 32-character ciphertext. */
  lemma ExampleOtp(s: string)
    requires s == ExampleText
    ensures ParsePasswordOtp(s) == Some(ParsedOtp("", s, "c", "cccccbdefghcbdefghcbdefghcbdefgh"))
  {
    ExampleIsModhex(s);
    ParseBareModhex(s);
    ExampleGroups(s);
  }

  lemma ExampleGroups(s: string)
    requires s == ExampleText
    ensures Groups("", s) == ParsedOtp("", s, "c", "cccccbdefghcbdefghcbdefghcbdefgh")
  {
    assert s[..1] == "c";
    assert s[1..] == "cccccbdefghcbdefghcbdefghcbdefgh";
  }
}
