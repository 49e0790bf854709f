/**
  Yubico::parsePasswordOTP: splits a one-time password, optionally preceded by a
  static password and the delimiter ':', into password, public prefix and
  ciphertext. The input is matched against

      /^((.*)[:])?(([A]{0,16})([A]{32}))$/i

  first with A the modhex alphabet and, failing that, with A the characters the
  same keys give on a Dvorak layout, whose match is translated back to modhex
  with strtr(). The matcher below follows PCRE's rules for this pattern: `^` and
  `$` anchor without the m modifier (so `$` also accepts one final "\n"), `.`
  does not match "\n", the optional group is tried before it is skipped, and the
  greedy `.*` backtracks from the right.
*/
module OtpParser {
  import opened Wrappers
  import opened PhpStrings

  /** The modhex alphabet, and the characters the same keys give on a Dvorak layout. */
  const Modhex: string := "cbdefghijklnrtuv"
  const Dvorak: string := "jxe.uidchtnbpygk"

  /** Under the `i` flag a character matches a class when its ASCII lower case is in it. */
  predicate InClass(c: char, alphabet: string) {
    LowerChar(c) in alphabet
  }

  /**
    s[i], as a separate term. AllInClass quantifies over At(s, i) rather than
    s[i] so that its facts are instantiated only where a proof names At, not on
    every index of every text in scope, which keeps proofs about the literal
    tables affordable.
  */
  function At(s: string, i: nat): char
    requires i < |s|
  {
    s[i]
  }

  predicate AllInClass(s: string, alphabet: string) {
    forall i :: 0 <= i < |s| ==> InClass(At(s, i), alphabet)
  }

  /** What `([A]{0,16})([A]{32})$` accepts: 32 to 48 characters of the class. */
  predicate IsOtpText(s: string, alphabet: string) {
    32 <= |s| <= 48 && AllInClass(s, alphabet)
  }

  /** The two alphabets the parser knows. */
  predicate IsAlphabet(alphabet: string) {
    alphabet == Modhex || alphabet == Dvorak
  }

  /** A class that matches neither the delimiter nor a newline, in either case. */
  predicate ExcludesSyntax(alphabet: string) {
    !InClass(':', alphabet) && !InClass('\n', alphabet)
  }

  /** The capture groups preg_match() fills: 2 (password), 3 (otp), 4 (prefix), 5 (ciphertext). */
  datatype ParsedOtp = ParsedOtp(password: string, otp: string, prefix: string, ciphertext: string)

  /**
    The part of the subject the pattern has to cover: `$` matches at the very
    end and also before a final "\n", and the pattern cannot end in "\n".
  */
  function Subject(s: string): (t: string)
    ensures t == s || t + "\n" == s
  {
    if |s| > 0 && s[|s| - 1] == '\n' then s[..|s| - 1] else s
  }

  /**
    Position i can be where the optional group `((.*)[:])` ends: t[i] is the
    delimiter, `.*` can cover t[..i] and the rest of the pattern covers t[i + 1..].
  */
  predicate SplitsAt(t: string, alphabet: string, i: nat)
    requires i < |t|
  {
    t[i] == ':' && '\n' !in t[..i] && IsOtpText(t[i + 1..], alphabet)
  }

  /**
    The greedy `.*` followed by the delimiter: positions are tried from n - 1
    down to 0 and the first (the largest) that lets the pattern succeed is taken.
  */
  function GreedySplit(t: string, alphabet: string, n: nat): (r: Option<nat>)
    requires n <= |t|
    ensures r.Some? ==> r.value < n && SplitsAt(t, alphabet, r.value)
    ensures r.Some? ==> forall i :: r.value < i < n ==> !SplitsAt(t, alphabet, i)
    ensures r.None? ==> forall i :: 0 <= i < n ==> !SplitsAt(t, alphabet, i)
  {
    if n == 0 then None
    else if SplitsAt(t, alphabet, n - 1) then Some(n - 1)
    else GreedySplit(t, alphabet, n - 1)
  }

  /** The groups of a match whose group 3 is otp (it is at least 32 characters long). */
  function Groups(password: string, otp: string): ParsedOtp
    requires |otp| >= 32
  {
    ParsedOtp(password, otp, otp[..|otp| - 32], otp[|otp| - 32..])
  }

  /**
    The pattern over one alphabet, against the part of the subject it has to
    cover: the optional group first, then without it. A match is either a
    password, the delimiter and the OTP characters, or the OTP characters alone
    with an empty password; the prefix is what precedes the last 32 characters.
  */
  function MatchSubject(t: string, alphabet: string): (r: Option<ParsedOtp>)
    ensures r.Some? ==> IsOtpText(r.value.otp, alphabet) && '\n' !in r.value.password
    ensures r.Some? ==> t == r.value.password + ":" + r.value.otp
                        || (r.value.password == "" && t == r.value.otp)
    ensures r.Some? ==> r.value.prefix + r.value.ciphertext == r.value.otp
                        && |r.value.ciphertext| == 32 && |r.value.prefix| <= 16
  {
    match GreedySplit(t, alphabet, |t|)
    case Some(i) =>
      assert t == t[..i] + ":" + t[i + 1..];
      Some(Groups(t[..i], t[i + 1..]))
    case None =>
      if IsOtpText(t, alphabet) then Some(Groups("", t)) else None
  }

  /** preg_match() of the pattern over one alphabet: the groups when s matches. */
  function MatchOtp(s: string, alphabet: string): Option<ParsedOtp> {
    MatchSubject(Subject(s), alphabet)
  }

  /**
    Yubico::parsePasswordOTP with the default delimiter: the modhex match,
    verbatim, if there is one; otherwise the Dvorak match with its otp group
    translated by strtr() and its prefix and ciphertext groups as typed.
  */
  function ParsePasswordOtp(s: string): (r: Option<ParsedOtp>)
    ensures r.Some? ==> |r.value.ciphertext| == 32 && |r.value.prefix| <= 16
    ensures r.Some? ==> |r.value.otp| == |r.value.prefix| + 32
  {
    match MatchOtp(s, Modhex)
    case Some(m) => Some(m)
    case None =>
      match MatchOtp(s, Dvorak)
      case Some(m) => Some(m.(otp := StrTr(m.otp, Dvorak, Modhex)))
      case None => None
  }

  // ---------------------------------------------------------------------------
  // What the pattern accepts
  // ---------------------------------------------------------------------------

  /** The input shapes the pattern describes: `password:` (or nothing), then the OTP characters. */
  function Compose(password: Option<string>, otp: string): string {
    match password
    case None => otp
    case Some(p) => p + ":" + otp
  }

  lemma AlphabetsExcludeSyntax(alphabet: string)
    requires IsAlphabet(alphabet)
    ensures ExcludesSyntax(alphabet)
  {
  }

  /** Text of such a class holds no delimiter and no newline. */
  lemma OtpTextExcludes(s: string, alphabet: string)
    requires ExcludesSyntax(alphabet) && AllInClass(s, alphabet)
    ensures ':' !in s && '\n' !in s
  {
    forall i | 0 <= i < |s| ensures s[i] != ':' && s[i] != '\n' {
      assert InClass(At(s, i), alphabet);
    }
  }

  /** Of two ways to write a string as x + ":" + y with no ':' in y, y is the same. */
  lemma {:induction false} LastDelimiterUnique(a: string, b: string, c: string, d: string)
    requires a + ":" + b == c + ":" + d
    requires ':' !in b && ':' !in d
    ensures a == c && b == d
  {
    var s := a + ":" + b;
    assert forall k :: |a| < k < |s| ==> s[k] == b[k - |a| - 1];
    assert forall k :: |c| < k < |s| ==> s[k] == d[k - |c| - 1];
    assert s[|a|] == ':' && s[|c|] == ':';
    assert |a| == |c|;
    assert a == s[..|a|] && c == s[..|c|];
    assert b == s[|a| + 1..] && d == s[|c| + 1..];
  }

  /** A final "\n" after text that does not end in one is what `$` skips. */
  lemma SubjectOfComposed(password: Option<string>, otp: string, nl: string)
    requires |otp| > 0 && otp[|otp| - 1] != '\n'
    requires nl == "" || nl == "\n"
    ensures Subject(Compose(password, otp) + nl) == Compose(password, otp)
  {
    var c := Compose(password, otp);
    assert c[|c| - 1] == otp[|otp| - 1];
    if nl == "\n" {
      assert (c + nl)[..|c + nl| - 1] == c;
    }
  }

  /** The OTP characters alone match, with an empty password. */
  lemma MatchSubjectBare(otp: string, alphabet: string)
    requires ExcludesSyntax(alphabet) && IsOtpText(otp, alphabet)
    ensures MatchSubject(otp, alphabet) == Some(Groups("", otp))
  {
    OtpTextExcludes(otp, alphabet);
    assert GreedySplit(otp, alphabet, |otp|).None?;
  }

  /** A password, the delimiter and the OTP characters match, split at that delimiter. */
  lemma {:induction false} MatchSubjectPassword(p: string, otp: string, alphabet: string)
    requires ExcludesSyntax(alphabet) && IsOtpText(otp, alphabet) && '\n' !in p
    ensures MatchSubject(p + ":" + otp, alphabet) == Some(Groups(p, otp))
  {
    var t := p + ":" + otp;
    OtpTextExcludes(otp, alphabet);
    assert t[..|p|] == p && t[|p| + 1..] == otp;
    assert SplitsAt(t, alphabet, |p|);
    var r := GreedySplit(t, alphabet, |t|);
    assert r.Some?;
    assert forall k :: |p| < k < |t| ==> t[k] == otp[k - |p| - 1];
    assert r.value == |p|;
  }

  /**
    Every input of the shape the pattern describes matches, with password, prefix and
    ciphertext recovered exactly and the otp group verbatim; one final "\n"
    makes no difference.
  */
  lemma MatchOtpAccepts(password: Option<string>, otp: string, alphabet: string, nl: string)
    requires IsAlphabet(alphabet) && IsOtpText(otp, alphabet)
    requires password.Some? ==> '\n' !in password.value
    requires nl == "" || nl == "\n"
    ensures MatchOtp(Compose(password, otp) + nl, alphabet) == Some(Groups(password.GetOr(""), otp))
  {
    AlphabetsExcludeSyntax(alphabet);
    OtpTextExcludes(otp, alphabet);
    SubjectOfComposed(password, otp, nl);
    match password {
      case None => MatchSubjectBare(otp, alphabet);
      case Some(p) => MatchSubjectPassword(p, otp, alphabet);
    }
  }

  /**
    The shape the pattern describes, on the part of the subject it covers:
    OTP characters alone, or a delimiter with no newline before it and OTP
    characters after it.
  */
  predicate Shaped(t: string, alphabet: string) {
    IsOtpText(t, alphabet) || exists i :: 0 <= i < |t| && SplitsAt(t, alphabet, i)
  }

  /**
    parsePasswordOTP accepts exactly the inputs that are, up to one final "\n",
    an optional `password:` followed by 32 to 48 characters of one alphabet,
    whatever their case; all other inputs give false.
  */
  lemma ParseAcceptsExactly(s: string)
    ensures ParsePasswordOtp(s).Some? <==> Shaped(Subject(s), Modhex) || Shaped(Subject(s), Dvorak)
  {
  }

  /** Malformed input, such as anything shorter than 32 characters, is rejected. */
  lemma RejectsShort(s: string)
    requires |s| < 32
    ensures ParsePasswordOtp(s) == None
  {
  }

  /**
    Every character of the returned otp is a letter of one of the two classes:
    the Dvorak translation only ever writes modhex letters.
  */
  lemma ParsedOtpLetters(s: string)
    requires ParsePasswordOtp(s).Some?
    ensures forall i :: 0 <= i < |ParsePasswordOtp(s).value.otp| ==>
              InClass(ParsePasswordOtp(s).value.otp[i], Modhex) || InClass(ParsePasswordOtp(s).value.otp[i], Dvorak)
  {
    if MatchOtp(s, Modhex).Some? {
      var o := MatchOtp(s, Modhex).value.otp;
      forall i | 0 <= i < |o| ensures InClass(o[i], Modhex) {
        assert InClass(At(o, i), Modhex);
      }
    } else {
      var m := MatchOtp(s, Dvorak).value;
      TranslatedLetters(m.otp, Dvorak, Modhex);
    }
  }

  /**
    A text of letters of the two classes holds no '&', so it cannot split a
    query string. Here and below, lemmas take the tables as parameters m and d
    required to equal Modhex and Dvorak: the proof then reasons about the names
    and unfolds the literal strings only where it must, which keeps it cheap.
  */
  lemma LettersFree(o: string, m: string, d: string)
    requires m == Modhex && d == Dvorak
    requires forall i :: 0 <= i < |o| ==> InClass(o[i], m) || InClass(o[i], d)
    ensures '&' !in o
  {
    AmpersandOutside(m, d);
    forall i | 0 <= i < |o| ensures o[i] != '&' {
      assert InClass(o[i], m) || InClass(o[i], d);
    }
  }

  lemma AmpersandOutside(m: string, d: string)
    requires m == Modhex && d == Dvorak
    ensures !InClass('&', m) && !InClass('&', d)
  {
  }

  /** strtr() from the Dvorak table to the modhex one keeps a text's letters within the two classes. */
  lemma TranslatedLetters(text: string, d: string, m: string)
    requires d == Dvorak && m == Modhex && AllInClass(text, d)
    ensures forall i :: 0 <= i < |text| ==> InClass(StrTr(text, d, m)[i], m) || InClass(StrTr(text, d, m)[i], d)
  {
    forall i | 0 <= i < |text|
      ensures InClass(StrTr(text, d, m)[i], m) || InClass(StrTr(text, d, m)[i], d)
    {
      var c := TrChar(text[i], d, m);
      assert InClass(At(text, i), d);
      TrCharRange(text[i], d, m);
      if c in m {
        LowerInTable(c, m);
      }
    }
  }

  /** The tables hold no upper-case letters, so lower-casing leaves their characters alone. */
  lemma LowerInTable(c: char, m: string)
    requires m == Modhex && c in m
    ensures LowerChar(c) == c
  {
  }

  // ---------------------------------------------------------------------------
  // Which alphabet wins
  // ---------------------------------------------------------------------------

  /**
    An input in modhex is returned as typed: the otp group is not lower-cased,
    and the Dvorak pattern is never consulted.
  */
  lemma ParseModhex(password: Option<string>, otp: string, nl: string)
    requires IsOtpText(otp, Modhex)
    requires password.Some? ==> '\n' !in password.value
    requires nl == "" || nl == "\n"
    ensures ParsePasswordOtp(Compose(password, otp) + nl) == Some(Groups(password.GetOr(""), otp))
  {
    MatchOtpAccepts(password, otp, Modhex, nl);
  }

  /** Text with a character outside modhex, after an optional password, does not match modhex. */
  lemma {:induction false} NoModhexMatch(password: Option<string>, text: string, nl: string)
    requires |text| > 0 && text[|text| - 1] != '\n' && ':' !in text && !AllInClass(text, Modhex)
    requires nl == "" || nl == "\n"
    ensures MatchOtp(Compose(password, text) + nl, Modhex) == None
  {
    SubjectOfComposed(password, text, nl);
    AlphabetsExcludeSyntax(Modhex);
    var t := Compose(password, text);
    match MatchSubject(t, Modhex)
    case None =>
    case Some(m) =>
      OtpTextExcludes(m.otp, Modhex);
      match password {
        case None =>
          assert false;
        case Some(pw) =>
          if t == m.otp {
            assert false;
          } else {
            LastDelimiterUnique(pw, text, m.password, m.otp);
            assert false;
          }
      }
  }

  /**
    An input in the Dvorak alphabet that is not also modhex: the otp is the
    per-character strtr() translation, while prefix and ciphertext stay as typed.
  */
  lemma ParseDvorak(password: Option<string>, text: string, nl: string)
    requires IsOtpText(text, Dvorak) && !AllInClass(text, Modhex)
    requires password.Some? ==> '\n' !in password.value
    requires nl == "" || nl == "\n"
    ensures ParsePasswordOtp(Compose(password, text) + nl)
         == Some(Groups(password.GetOr(""), text).(otp := StrTr(text, Dvorak, Modhex)))
  {
    AlphabetsExcludeSyntax(Dvorak);
    OtpTextExcludes(text, Dvorak);
    NoModhexMatch(password, text, nl);
    MatchOtpAccepts(password, text, Dvorak, nl);
  }
}
