/**
  The verification request of verifyYubicoOtp(): the parameter array, its
  ksort() order, the query string the foreach loop and ltrim() build from it,
  and the optional HMAC-SHA1 signature appended as h with '+' escaped.
*/
module Request {
  import opened PhpStrings

  /** One entry of the parameter array: its key and its value as text. */
  type Param = (string, string)

  /**
    The foreign functions the client calls: base64_decode(), base64_encode()
    and hash_hmac('sha1', data, key, true). They are parameters of the model.
  */
  datatype Primitives = Primitives(
    base64Decode: string -> string,
    base64Encode: string -> string,
    hmacSha1: (string, string) -> string)

  /** The parameter array as the source writes it, before ksort(). */
  function Params(id: string, otp: string, nonce: string): seq<Param> {
    [("id", id), ("otp", otp), ("nonce", nonce), ("timestamp", "1"), ("sl", "0"), ("timeout", "30")]
  }

  /** Keys in strictly ascending byte order, which is what ksort() leaves. */
  predicate KeysAscending(ps: seq<Param>) {
    forall i, j :: 0 <= i < j < |ps| ==> Less(ps[i].0, ps[j].0)
  }

  /** The parameter array after ksort(). */
  function SortedParams(id: string, otp: string, nonce: string): seq<Param> {
    [("id", id), ("nonce", nonce), ("otp", otp), ("sl", "0"), ("timeout", "30"), ("timestamp", "1")]
  }

  /**
    SortedParams is what ksort() makes of the array: the same entries, keys
    ascending. With SortedUnique, no other order qualifies.
  */
  lemma KsortOrder(id: string, otp: string, nonce: string)
    ensures KeysAscending(SortedParams(id, otp, nonce))
    ensures multiset(SortedParams(id, otp, nonce)) == multiset(Params(id, otp, nonce))
  {
    forall i, j | 0 <= i < j < 6 ensures Less(SortedKeys[i], SortedKeys[j]) {
      KeyOrder(i, j);
    }
    SortedKeysOf(id, otp, nonce);
    AscendingByKeys(SortedParams(id, otp, nonce), SortedKeys);
    SameEntries(id, otp, nonce);
  }

  /** The six keys in ksort() order, pairwise. */
  lemma KeyOrder(i: nat, j: nat)
    requires i < j < 6
    ensures Less(SortedKeys[i], SortedKeys[j])
  {
    assert Less("timeout", "timestamp");
    assert Less("sl", "timeout") && Less("sl", "timestamp");
    assert Less("otp", "sl") && Less("otp", "timeout") && Less("otp", "timestamp");
    assert Less("nonce", "otp") && Less("nonce", "sl");
    assert Less("nonce", "timeout") && Less("nonce", "timestamp");
    assert Less("id", "nonce") && Less("id", "otp") && Less("id", "sl");
    assert Less("id", "timeout") && Less("id", "timestamp");
  }

  lemma SortedKeysOf(id: string, otp: string, nonce: string)
    ensures |SortedParams(id, otp, nonce)| == |SortedKeys|
    ensures forall i :: 0 <= i < |SortedKeys| ==> SortedParams(id, otp, nonce)[i].0 == SortedKeys[i]
  {
  }

  lemma AscendingByKeys(ps: seq<Param>, keys: seq<string>)
    requires |ps| == |keys| && forall i :: 0 <= i < |ps| ==> ps[i].0 == keys[i]
    requires forall i, j :: 0 <= i < j < |keys| ==> Less(keys[i], keys[j])
    ensures KeysAscending(ps)
  {
  }

  const SortedKeys: seq<string> := ["id", "nonce", "otp", "sl", "timeout", "timestamp"]

  lemma SameEntries(id: string, otp: string, nonce: string)
    ensures multiset(SortedParams(id, otp, nonce)) == multiset(Params(id, otp, nonce))
  {
    var a, b, c, d, e, f := ("id", id), ("nonce", nonce), ("otp", otp), ("sl", "0"), ("timeout", "30"), ("timestamp", "1");
    calc {
      multiset(SortedParams(id, otp, nonce));
      multiset{a, b, c, d, e, f};
      multiset{a, c, b, f, d, e};
      multiset(Params(id, otp, nonce));
    }
  }

  /** Two key-ascending arrays with the same entries are the same array. */
  lemma {:induction false} SortedUnique(ps: seq<Param>, qs: seq<Param>)
    requires KeysAscending(ps) && KeysAscending(qs)
    requires multiset(ps) == multiset(qs)
    ensures ps == qs
    decreases |ps|
  {
    if |ps| == 0 {
      assert |multiset(qs)| == 0;
    } else {
      assert ps[0] in multiset(qs);
      SameHead(ps, qs);
      TailAscending(ps);
      TailAscending(qs);
      SameTailEntries(ps, qs);
      SortedUnique(ps[1..], qs[1..]);
      assert ps == [ps[0]] + ps[1..];
      assert qs == [qs[0]] + qs[1..];
    }
  }

  /** The first entries of two key-ascending arrays with the same entries agree. */
  lemma SameHead(ps: seq<Param>, qs: seq<Param>)
    requires KeysAscending(ps) && KeysAscending(qs)
    requires multiset(ps) == multiset(qs) && |ps| > 0 && |qs| > 0
    ensures ps[0] == qs[0]
  {
    assert qs[0] in multiset(ps);
    assert ps[0] in multiset(qs);
    var k :| 0 <= k < |ps| && ps[k] == qs[0];
    var m :| 0 <= m < |qs| && qs[m] == ps[0];
    if k != 0 {
      assert Less(ps[0].0, qs[0].0);
      if m == 0 {
        LessAsymmetric(ps[0].0, qs[0].0);
      } else {
        assert Less(qs[0].0, ps[0].0);
        LessAsymmetric(ps[0].0, qs[0].0);
      }
    }
  }

  lemma TailAscending(ps: seq<Param>)
    requires KeysAscending(ps) && |ps| > 0
    ensures KeysAscending(ps[1..])
  {
    forall i, j | 0 <= i < j < |ps| - 1 ensures Less(ps[1..][i].0, ps[1..][j].0) {
      assert ps[1..][i] == ps[i + 1] && ps[1..][j] == ps[j + 1];
    }
  }

  lemma SameTailEntries(ps: seq<Param>, qs: seq<Param>)
    requires multiset(ps) == multiset(qs) && |ps| > 0 && |qs| > 0 && ps[0] == qs[0]
    ensures multiset(ps[1..]) == multiset(qs[1..])
  {
    assert ps == [ps[0]] + ps[1..];
    assert qs == [qs[0]] + qs[1..];
    assert multiset(ps[1..]) == multiset(ps) - multiset{ps[0]};
    assert multiset(qs[1..]) == multiset(qs) - multiset{qs[0]};
  }

  /** Whatever ksort() returns for the parameter array is SortedParams. */
  lemma KsortResult(id: string, otp: string, nonce: string, sorted: seq<Param>)
    requires KeysAscending(sorted)
    requires multiset(sorted) == multiset(Params(id, otp, nonce))
    ensures sorted == SortedParams(id, otp, nonce)
  {
    KsortOrder(id, otp, nonce);
    SortedUnique(sorted, SortedParams(id, otp, nonce));
  }

  /** "key=value" for one entry. */
  function Pair(p: Param): string {
    p.0 + "=" + p.1
  }

  function Pairs(ps: seq<Param>): (r: seq<string>)
    ensures |r| == |ps| && forall i :: 0 <= i < |ps| ==> r[i] == Pair(ps[i])
  {
    seq(|ps|, i requires 0 <= i < |ps| => Pair(ps[i]))
  }

  /** The query string of the entries, in order: the pairs joined by '&'. */
  function Serialize(ps: seq<Param>): string {
    Implode(Pairs(ps), '&')
  }

  /** What the foreach loop accumulates: "&key=value" for each entry. */
  function Prefixed(ps: seq<Param>): string {
    if |ps| == 0 then "" else Prefixed(ps[..|ps| - 1]) + "&" + Pair(ps[|ps| - 1])
  }

  lemma {:induction false} ImplodeAppend(xs: seq<string>, x: string, sep: char)
    requires |xs| > 0
    ensures Implode(xs + [x], sep) == Implode(xs, sep) + [sep] + x
    decreases |xs|
  {
    if |xs| > 1 {
      assert (xs + [x])[1..] == xs[1..] + [x];
      ImplodeAppend(xs[1..], x, sep);
    }
  }

  /** The loop's text is the query string with one '&' in front. */
  lemma {:induction false} PrefixedSerialize(ps: seq<Param>)
    requires |ps| > 0
    ensures Prefixed(ps) == "&" + Serialize(ps)
    decreases |ps|
  {
    var init := ps[..|ps| - 1];
    if |init| > 0 {
      PrefixedSerialize(init);
      assert Pairs(ps) == Pairs(init) + [Pair(ps[|ps| - 1])];
      ImplodeAppend(Pairs(init), Pair(ps[|ps| - 1]), '&');
    } else {
      assert Pairs(ps) == [Pair(ps[0])];
    }
  }

  /** ltrim(…, "&") removes exactly the one leading '&' when the text after it does not start with '&'. */
  lemma LTrimOne(s: string)
    requires |s| > 0 && s[0] != '&'
    ensures LTrim("&" + s, {'&'}) == s
  {
    var t := "&" + s;
    var r := LTrim(t, {'&'});
    assert t[1] == s[0];
    assert |t| - |r| == 1;
    assert t[1..] == s;
  }

  /**
    The ksort(), foreach and ltrim() steps of verifyYubicoOtp(): the query
    string of the sorted parameter array.
  */
  method UnsignedQuery(id: string, otp: string, nonce: string) returns (q: string)
    ensures q == Serialize(SortedParams(id, otp, nonce))
  {
    var params := SortedParams(id, otp, nonce);
    var parameters := "";
    for i := 0 to |params|
      invariant parameters == Prefixed(params[..i])
    {
      assert params[..i + 1][..i] == params[..i];
      parameters := parameters + "&" + params[i].0 + "=" + params[i].1;
    }
    assert params[..|params|] == params;
    PrefixedSerialize(params);
    LTrimOne(Serialize(params));
    q := LTrim(parameters, {'&'});
  }

  /** The query string written out: its keys in ksort() order. */
  lemma QueryText(id: string, otp: string, nonce: string)
    ensures Serialize(SortedParams(id, otp, nonce))
      == ("id=" + id) + "&" + ("nonce=" + nonce) + "&" + ("otp=" + otp) + "&" + "sl=0" + "&" + "timeout=30" + "&" + "timestamp=1"
  {
    SortedPairs(id, otp, nonce);
    ImplodeSix("id=" + id, "nonce=" + nonce, "otp=" + otp, "sl=0", "timeout=30", "timestamp=1");
  }

  lemma SortedPairs(id: string, otp: string, nonce: string)
    ensures Pairs(SortedParams(id, otp, nonce))
      == ["id=" + id, "nonce=" + nonce, "otp=" + otp, "sl=0", "timeout=30", "timestamp=1"]
  {
    var ps := SortedParams(id, otp, nonce);
    var want := ["id=" + id, "nonce=" + nonce, "otp=" + otp, "sl=0", "timeout=30", "timestamp=1"];
    forall i | 0 <= i < 6 ensures Pairs(ps)[i] == want[i] {
      assert Pairs(ps)[i] == ps[i].0 + "=" + ps[i].1;
    }
  }

  lemma ImplodeSix(a: string, b: string, c: string, d: string, e: string, f: string)
    ensures Implode([a, b, c, d, e, f], '&') == a + "&" + b + "&" + c + "&" + d + "&" + e + "&" + f
  {
    ImplodeAppend([a], b, '&');
    ImplodeAppend([a, b], c, '&');
    ImplodeAppend([a, b, c], d, '&');
    ImplodeAppend([a, b, c, d], e, '&');
    ImplodeAppend([a, b, c, d, e], f, '&');
    assert [a] + [b] == [a, b];
    assert [a, b] + [c] == [a, b, c];
    assert [a, b, c] + [d] == [a, b, c, d];
    assert [a, b, c, d] + [e] == [a, b, c, d, e];
    assert [a, b, c, d, e] + [f] == [a, b, c, d, e, f];
  }

  /** A text in which no key or value holds the separator c. */
  predicate FreeOf(ps: seq<Param>, c: char) {
    forall i :: 0 <= i < |ps| ==> c !in ps[i].0 && c !in ps[i].1
  }

  lemma PairsFree(ps: seq<Param>)
    requires FreeOf(ps, '&')
    ensures forall i :: 0 <= i < |ps| ==> '&' !in Pairs(ps)[i]
  {
    forall i | 0 <= i < |ps| ensures '&' !in Pairs(ps)[i] {
      assert Pairs(ps)[i] == ps[i].0 + "=" + ps[i].1;
    }
  }

  /** With no '&' in the id, the OTP or the nonce, no entry of the sorted array holds one. */
  lemma SortedFree(id: string, otp: string, nonce: string)
    requires '&' !in id && '&' !in otp && '&' !in nonce
    ensures FreeOf(SortedParams(id, otp, nonce), '&')
  {
  }

  /**
    The query string reads back: splitting it at '&' gives the pairs, and
    splitting a pair at '=' gives its key and its value.
  */
  lemma QueryRoundTrip(ps: seq<Param>)
    requires |ps| > 0 && FreeOf(ps, '&')
    ensures Explode(Serialize(ps), '&') == Pairs(ps)
    ensures FreeOf(ps, '=') ==> forall i :: 0 <= i < |ps| ==> Explode(Pairs(ps)[i], '=') == [ps[i].0, ps[i].1]
  {
    var pairs := Pairs(ps);
    PairsFree(ps);
    ExplodeImplode(pairs, '&');
    if FreeOf(ps, '=') {
      forall i | 0 <= i < |ps| ensures Explode(pairs[i], '=') == [ps[i].0, ps[i].1] {
        assert Implode([ps[i].0, ps[i].1], '=') == pairs[i];
        ExplodeImplode([ps[i].0, ps[i].1], '=');
      }
    }
  }

  /** preg_replace('/\+/', '%2B', s): every '+' becomes "%2B". */
  function EscapePlus(s: string): (r: string)
    ensures '+' !in r
    ensures '+' !in s ==> r == s
    ensures '&' !in s ==> '&' !in r
  {
    if |s| == 0 then ""
    else (if s[0] == '+' then "%2B" else [s[0]]) + EscapePlus(s[1..])
  }

  /** The receiving side's decoding of "%2B" back to '+'. */
  function UnescapePlus(s: string): string {
    if |s| == 0 then ""
    else if |s| >= 3 && s[..3] == "%2B" then "+" + UnescapePlus(s[3..])
    else [s[0]] + UnescapePlus(s[1..])
  }

  /** Escaping is undone by decoding, provided the text has no '%' of its own (base64 has none). */
  lemma {:induction false} EscapeRoundTrip(s: string)
    requires '%' !in s
    ensures UnescapePlus(EscapePlus(s)) == s
  {
    if |s| > 0 {
      EscapeRoundTrip(s[1..]);
      if s[0] == '+' {
        UnescapeCode(EscapePlus(s[1..]));
      } else {
        UnescapeOther(s[0], EscapePlus(s[1..]));
      }
      assert s == [s[0]] + s[1..];
    }
  }

  lemma UnescapeCode(t: string)
    ensures UnescapePlus("%2B" + t) == "+" + UnescapePlus(t)
  {
    assert ("%2B" + t)[..3] == "%2B";
    assert ("%2B" + t)[3..] == t;
  }

  lemma UnescapeOther(c: char, t: string)
    requires c != '%'
    ensures UnescapePlus([c] + t) == [c] + UnescapePlus(t)
  {
    assert ([c] + t)[0] == c;
    assert ([c] + t)[1..] == t;
  }

  /** The h parameter's value: the base64 HMAC-SHA1 of the query under the key, '+' escaped. */
  function Signature(query: string, key: string, prims: Primitives): string {
    EscapePlus(prims.base64Encode(prims.hmacSha1(query, key)))
  }

  /** The query sent: signed with "&h=…" when the key is not empty, unsigned otherwise. */
  function Signed(query: string, key: string, prims: Primitives): string {
    if key != "" then query + "&h=" + Signature(query, key, prims) else query
  }

  /**
    A signed query reads back as the parameters followed by h, whose value
    decodes to the base64 text of the HMAC; an unsigned one as the parameters
    alone.
  */
  lemma SignedRoundTrip(ps: seq<Param>, key: string, prims: Primitives)
    requires |ps| > 0 && FreeOf(ps, '&')
    requires key != "" ==> '&' !in prims.base64Encode(prims.hmacSha1(Serialize(ps), key))
    ensures key == "" ==> Explode(Signed(Serialize(ps), key, prims), '&') == Pairs(ps)
    ensures key != "" ==> Explode(Signed(Serialize(ps), key, prims), '&')
                            == Pairs(ps) + ["h=" + Signature(Serialize(ps), key, prims)]
  {
    if key == "" {
      QueryRoundTrip(ps);
    }
    if key != "" {
      var q := Serialize(ps);
      var h := "h=" + Signature(q, key, prims);
      var pieces := Pairs(ps) + [h];
      ImplodeAppend(Pairs(ps), h, '&');
      assert Signed(q, key, prims) == Implode(pieces, '&');
      PairsFree(ps);
      assert forall i :: 0 <= i < |pieces| ==> '&' !in pieces[i] by {
        forall i | 0 <= i < |pieces| ensures '&' !in pieces[i] {
          if i < |ps| {
            assert pieces[i] == Pairs(ps)[i];
          } else {
            assert pieces[i] == h;
          }
        }
      }
      ExplodeImplode(pieces, '&');
    }
  }
}
