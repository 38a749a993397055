/** The Zambia country parameter that both parsers add to a listing URL so
    that BeForward quotes prices to African ports (rus_bot.py
    `_add_zambia_country_param` and the URL built in rus_bot_fast.py `parse`). */
module CountryParam {
  import opened Text

  /** config.py ZAMBIA_COUNTRY_ID. */
  const ZambiaCountryId: nat := 88

  /** The query key, as looked up by `'tp_country_id' not in url`. */
  const CountryKey: string := "tp_country_id"

  /** The literal part of the pattern `tp_country_id=\d+`. */
  const KeyEq: string := "tp_country_id="

  /** `f'tp_country_id={config.ZAMBIA_COUNTRY_ID}'`. */
  const Param: string := "tp_country_id=88"

  // ---------------------------------------------------------------------
  // `re.sub(key + r'\d+', rep, s)` for a literal key

  /** Length of the run of digits at the start of `s`. */
  function DigitRun(s: string): (n: nat)
    ensures n <= |s|
    ensures forall i :: 0 <= i < n ==> IsDigit(s[i])
    ensures n == |s| || !IsDigit(s[n])
  {
    if s != [] && IsDigit(s[0]) then 1 + DigitRun(s[1..]) else 0
  }

  /** The pattern `key\d+` matches at the start of `s`. */
  predicate MatchesAt0(key: string, s: string) {
    |s| > |key| && s[..|key|] == key && IsDigit(s[|key|])
  }

  /** Length of that match: `\d+` is greedy. */
  function MatchLen(key: string, s: string): (n: nat)
    requires MatchesAt0(key, s)
    ensures |key| < n <= |s|
    ensures n == |s| || !IsDigit(s[n])
  {
    |key| + DigitRun(s[|key|..])
  }

  /** `re.sub(key + r'\d+', rep, s)`: scanning left to right, each match is
      replaced by `rep` and scanning resumes after it. */
  function SubKeyDigits(key: string, rep: string, s: string): string
    decreases |s|
  {
    if s == [] then []
    else if MatchesAt0(key, s) then rep + SubKeyDigits(key, rep, s[MatchLen(key, s)..])
    else [s[0]] + SubKeyDigits(key, rep, s[1..])
  }

  /** No proper suffix of `key` is also a prefix of it. */
  predicate BorderFree(key: string) {
    forall j | 1 <= j < |key| :: key[j..] != key[..|key| - j]
  }

  /** What the lemmas below need of the pattern and its replacement: the key
      starts with a non-digit and has no border, and the replacement is the
      key followed by digits. */
  predicate GoodPattern(key: string, rep: string) {
    |key| > 0 && !IsDigit(key[0]) && BorderFree(key) &&
    |rep| > |key| && rep[..|key|] == key &&
    forall i | |key| <= i < |rep| :: IsDigit(rep[i])
  }

  /** A rewritten text starts with a digit exactly when the original does. */
  lemma SubFirstChar(key: string, rep: string, s: string)
    requires GoodPattern(key, rep) && s != []
    ensures SubKeyDigits(key, rep, s) != []
    ensures IsDigit(SubKeyDigits(key, rep, s)[0]) <==> IsDigit(s[0])
  {
    if MatchesAt0(key, s) {
      assert s[0] == s[..|key|][0] == key[0];
      assert rep[0] == rep[..|key|][0];
    }
  }

  /** A run of digits followed by a non-digit has exactly the digits' length. */
  lemma {:induction false} DigitRunOfDigits(d: string, t: string)
    requires forall i | 0 <= i < |d| :: IsDigit(d[i])
    requires t == [] || !IsDigit(t[0])
    ensures DigitRun(d + t) == |d|
  {
    if d == [] {
      assert d + t == t;
    } else {
      assert (d + t)[1..] == d[1..] + t;
      DigitRunOfDigits(d[1..], t);
    }
  }

  /** The replacement followed by text that does not start with a digit is
      left as it is. */
  lemma SubRepThen(key: string, rep: string, t: string)
    requires GoodPattern(key, rep)
    requires t == [] || !IsDigit(t[0])
    ensures SubKeyDigits(key, rep, rep + t) == rep + SubKeyDigits(key, rep, t)
  {
    var s := rep + t;
    assert s[..|key|] == rep[..|key|];
    assert s[|key|..] == rep[|key|..] + t;
    DigitRunOfDigits(rep[|key|..], t);
    assert s[MatchLen(key, s)..] == t;
  }

  /** A prefix of `s` in which no match starts is copied unchanged. */
  lemma {:induction false} SubSkipsFreePrefix(key: string, rep: string, s: string, n: nat)
    requires n <= |s|
    requires forall i | 0 <= i < n :: !MatchesAt0(key, s[i..])
    ensures SubKeyDigits(key, rep, s) == s[..n] + SubKeyDigits(key, rep, s[n..])
  {
    if n > 0 {
      assert !MatchesAt0(key, s[0..]) && s[0..] == s;
      forall i | 0 <= i < n - 1 ensures !MatchesAt0(key, s[1..][i..]) {
        assert s[1..][i..] == s[i + 1..];
      }
      SubSkipsFreePrefix(key, rep, s[1..], n - 1);
      assert s[1..][n - 1..] == s[n..];
      assert s[..n] == [s[0]] + s[1..][..n - 1];
    }
  }

  /** First position in `[i, bound)` where a match starts, or `bound`. */
  function FirstMatchFrom(key: string, s: string, i: nat, bound: nat): (j: nat)
    requires i <= bound <= |s|
    ensures i <= j <= bound
    ensures forall t | i <= t < j :: !MatchesAt0(key, s[t..])
    ensures j < bound ==> MatchesAt0(key, s[j..])
    decreases bound - i
  {
    if i == bound || MatchesAt0(key, s[i..]) then i else FirstMatchFrom(key, s, i + 1, bound)
  }

  /** The rewritten text either copies the first `|key| + 1` characters or
      holds the replacement at some position `j` among them. */
  lemma SubNearStart(key: string, rep: string, s: string) returns (j: nat)
    ensures j <= |key| + 1 && j <= |s| && j <= |SubKeyDigits(key, rep, s)|
    ensures j == |key| + 1 || j == |s| || (MatchesAt0(key, s[j..]) &&
              j + |rep| <= |SubKeyDigits(key, rep, s)| &&
              SubKeyDigits(key, rep, s)[j..j + |rep|] == rep)
    ensures SubKeyDigits(key, rep, s)[..j] == s[..j]
    ensures j == |s| ==> SubKeyDigits(key, rep, s) == s
  {
    var bound := if |s| < |key| + 1 then |s| else |key| + 1;
    j := FirstMatchFrom(key, s, 0, bound);
    SubSkipsFreePrefix(key, rep, s, j);
    var x := SubKeyDigits(key, rep, s);
    if j < bound {
      var rest := s[j..];
      var tail := SubKeyDigits(key, rep, rest[MatchLen(key, rest)..]);
      assert SubKeyDigits(key, rep, rest) == rep + tail;
      assert x == s[..j] + rep + tail;
      assert x[j..j + |rep|] == rep;
    } else if j == |s| {
      assert s[..j] == s && s[j..] == [];
    }
  }

  /** A text that agrees with `s` on its first `|key| + 1` characters
      matches at its start exactly when `s` does. */
  lemma MatchDependsOnPrefix(key: string, s: string, x: string)
    requires |s| > |key| && |x| > |key|
    requires x[..|key| + 1] == s[..|key| + 1]
    ensures MatchesAt0(key, x) <==> MatchesAt0(key, s)
  {
    assert x[..|key|] == x[..|key| + 1][..|key|];
    assert s[..|key|] == s[..|key| + 1][..|key|];
    assert x[|key|] == x[..|key| + 1][|key|];
    assert s[|key|] == s[..|key| + 1][|key|];
  }

  /** A copy of the replacement starting at one of the positions
      `1..|key|` rules out a match at position 0. */
  lemma RepBlocksEarlierMatch(key: string, rep: string, x: string, j: nat)
    requires GoodPattern(key, rep)
    requires 1 <= j <= |key| && j + |rep| <= |x|
    requires x[j..j + |rep|] == rep
    ensures !MatchesAt0(key, x)
  {
    if j < |key| {
      assert key[j..] != key[..|key| - j];
      assert x[..|key|][j..] == x[j..j + |rep|][..|key| - j];
      assert rep[..|key|][..|key| - j] == key[..|key| - j];
      assert x[..|key|][j..] != key[j..];
    } else {
      assert x[|key|] == rep[..|key|][0] == key[0];
    }
  }

  /** Where no match starts, none starts after rewriting either: a
      replacement cannot complete a partial key before it. */
  lemma SubKeepsNonMatch(key: string, rep: string, s: string)
    requires GoodPattern(key, rep) && !MatchesAt0(key, s)
    ensures !MatchesAt0(key, SubKeyDigits(key, rep, s))
  {
    var x := SubKeyDigits(key, rep, s);
    var j := SubNearStart(key, rep, s);
    if j == |s| {
    } else if j == |key| + 1 {
      MatchDependsOnPrefix(key, s, x);
    } else {
      assert j != 0;
      RepBlocksEarlierMatch(key, rep, x, j);
    }
  }

  /** Rewriting is idempotent: afterwards every match already reads `rep`. */
  lemma {:induction false} SubIdempotent(key: string, rep: string, s: string)
    requires GoodPattern(key, rep)
    ensures SubKeyDigits(key, rep, SubKeyDigits(key, rep, s)) == SubKeyDigits(key, rep, s)
    decreases |s|
  {
    if s == [] {
    } else if MatchesAt0(key, s) {
      var rest := s[MatchLen(key, s)..];
      SubIdempotent(key, rep, rest);
      if rest != [] {
        SubFirstChar(key, rep, rest);
      }
      SubRepThen(key, rep, SubKeyDigits(key, rep, rest));
    } else {
      SubIdempotent(key, rep, s[1..]);
      SubKeepsNonMatch(key, rep, s);
      var x := SubKeyDigits(key, rep, s);
      assert x[1..] == SubKeyDigits(key, rep, s[1..]);
    }
  }

  /** A digit run stops at a character that is not a digit. */
  lemma {:induction false} DigitRunStops(x: string, y: string)
    requires y != [] && !IsDigit(y[0])
    ensures DigitRun(x + y) == DigitRun(x)
  {
    if x != [] {
      assert (x + y)[1..] == x[1..] + y;
      DigitRunStops(x[1..], y);
    } else {
      assert x + y == y;
    }
  }

  /** Whether a match starts at the front of `a + b`, where `b` starts with a
      character that is neither a digit nor in the key, depends on `a` only. */
  lemma MatchBeforeSeparator(key: string, a: string, b: string)
    requires a != [] && b != [] && !IsDigit(b[0]) && b[0] !in key
    ensures MatchesAt0(key, a + b) <==> MatchesAt0(key, a)
    ensures MatchesAt0(key, a) ==> MatchLen(key, a + b) == MatchLen(key, a)
  {
    var s := a + b;
    if |a| > |key| {
      assert s[..|key|] == a[..|key|] && s[|key|] == a[|key|];
      if MatchesAt0(key, a) {
        assert s[|key|..] == a[|key|..] + b;
        DigitRunStops(a[|key|..], b);
      }
    } else if |a| < |key| {
      assert !MatchesAt0(key, s) by {
        assert s[|a|] == b[0];
      }
    } else {
      assert s[|key|] == b[0];
    }
  }

  /** No match crosses a character that is neither a digit nor in the key
      (such as `?` or `&`), so each side of it is rewritten on its own. */
  lemma {:induction false} SubSplits(key: string, rep: string, a: string, b: string)
    requires b != [] && !IsDigit(b[0]) && b[0] !in key
    ensures SubKeyDigits(key, rep, a + b) == SubKeyDigits(key, rep, a) + SubKeyDigits(key, rep, b)
    decreases |a|
  {
    if a == [] {
      assert a + b == b;
      return;
    }
    var s := a + b;
    MatchBeforeSeparator(key, a, b);
    if MatchesAt0(key, a) {
      var m := MatchLen(key, a);
      assert s[m..] == a[m..] + b;
      SubSplits(key, rep, a[m..], b);
    } else {
      assert s[1..] == a[1..] + b;
      SubSplits(key, rep, a[1..], b);
    }
  }

  /** Without the key's first characters `p` anywhere in it, a text is not
      changed by rewriting. */
  lemma SubWithoutKey(key: string, rep: string, p: string, s: string)
    requires |p| <= |key| && key[..|p|] == p
    requires !IsInfix(p, s)
    ensures SubKeyDigits(key, rep, s) == s
  {
    forall i | 0 <= i < |s| ensures !MatchesAt0(key, s[i..]) {
      if MatchesAt0(key, s[i..]) {
        assert s[i..i + |p|] == s[i..][..|key|][..|p|];
        assert OccursAt(p, s, i);
      }
    }
    SubSkipsFreePrefix(key, rep, s, |s|);
    assert s[..|s|] == s;
  }

  /** A prefix `p` of the key at the very start survives rewriting: either a
      match within its reach is replaced by `rep`, or the start is copied. */
  lemma SubKeepsKeyPrefixAtStart(key: string, rep: string, p: string, s: string)
    requires GoodPattern(key, rep) && |p| <= |key| && key[..|p|] == p
    requires |p| <= |s| && OccursAt(p, s, 0)
    ensures IsInfix(p, SubKeyDigits(key, rep, s))
  {
    var x := SubKeyDigits(key, rep, s);
    var j := SubNearStart(key, rep, s);
    if j == |s| || j == |key| + 1 {
      CopiedPrefixOccurs(p, s, x, j);
    } else {
      PrefixOfRepOccurs(key, rep, p, x, j);
    }
  }

  /** An occurrence at the start of `s` within a copied prefix of it. */
  lemma CopiedPrefixOccurs(p: string, s: string, x: string, j: nat)
    requires OccursAt(p, s, 0) && |p| <= j <= |x| && j <= |s| && x[..j] == s[..j]
    ensures OccursAt(p, x, 0)
  {
    assert x[..|p|] == x[..j][..|p|];
    assert s[..|p|] == s[..j][..|p|];
  }

  /** A prefix of the key occurs wherever the replacement does. */
  lemma PrefixOfRepOccurs(key: string, rep: string, p: string, x: string, j: nat)
    requires |p| <= |key| <= |rep| && key[..|p|] == p && rep[..|key|] == key
    requires j + |rep| <= |x| && x[j..j + |rep|] == rep
    ensures OccursAt(p, x, j)
  {
    assert x[j..j + |p|] == x[j..j + |rep|][..|p|];
    assert rep[..|p|] == rep[..|key|][..|p|];
  }

  /** Rewriting never removes a prefix `p` of the key from a text. */
  lemma {:induction false} SubKeepsKeyPrefix(key: string, rep: string, p: string, s: string)
    requires GoodPattern(key, rep) && |p| <= |key| && key[..|p|] == p
    requires IsInfix(p, s)
    ensures IsInfix(p, SubKeyDigits(key, rep, s))
    decreases |s|
  {
    var x := SubKeyDigits(key, rep, s);
    if OccursAt(p, s, 0) {
      SubKeepsKeyPrefixAtStart(key, rep, p, s);
    } else {
      var i :| 0 <= i <= |s| - |p| && OccursAt(p, s, i);
      assert OccursAt(p, s[1..], i - 1) by {
        assert s[1..][i - 1..i - 1 + |p|] == s[i..i + |p|];
      }
      SubKeepsKeyPrefix(key, rep, p, s[1..]);
      var y := SubKeyDigits(key, rep, s[1..]);
      var k :| 0 <= k <= |y| - |p| && OccursAt(p, y, k);
      assert x == [s[0]] + y;
      assert x[k + 1..k + 1 + |p|] == y[k..k + |p|];
      assert OccursAt(p, x, k + 1);
    }
  }

  /** Rewriting keeps every character that is neither a digit nor in the key. */
  lemma SubKeepsSeparator(key: string, rep: string, c: char, s: string)
    requires !IsDigit(c) && c !in key && c in s
    ensures c in SubKeyDigits(key, rep, s)
  {
    var i :| 0 <= i < |s| && s[i] == c;
    assert s == s[..i] + s[i..];
    SubSplits(key, rep, s[..i], s[i..]);
    assert SubKeyDigits(key, rep, s[i..])[0] == c;
  }

  // ---------------------------------------------------------------------
  // The country parameter

  /** `tp_country_id=` and `tp_country_id=88` meet what the rewriting lemmas
      need. */
  lemma CountryPatternIsGood()
    ensures GoodPattern(KeyEq, Param)
    ensures Param == KeyEq + NatToDecimal(ZambiaCountryId)
    ensures KeyEq[..|CountryKey|] == CountryKey
    ensures '?' !in KeyEq && '&' !in KeyEq
  {
    forall j | 1 <= j < |KeyEq| ensures KeyEq[j..] != KeyEq[..|KeyEq| - j] {
      assert '=' !in KeyEq[..|KeyEq| - 1];
      assert KeyEq[..|KeyEq| - j][|KeyEq| - j - 1] in KeyEq[..|KeyEq| - 1];
      assert KeyEq[j..][|KeyEq| - j - 1] == '=';
    }
  }

  /** `re.sub(r'tp_country_id=\d+', Param, s)`. */
  function RewriteIds(s: string): string {
    SubKeyDigits(KeyEq, Param, s)
  }

  /** rus_bot.py `_add_zambia_country_param`. */
  function AddZambiaCountryParam(url: string): string {
    if '?' in url then
      if !IsInfix(CountryKey, url) then url + "&" + Param else RewriteIds(url)
    else url + "?" + Param
  }

  /** rus_bot_fast.py `parse`: the parameter is appended after `&` or `?`
      whatever the URL already holds, so the URL is always a prefix of the
      result. */
  function FastParseUrl(url: string): (r: string)
    ensures StartsWith(r, url)
    ensures |r| == |url| + 1 + |Param|
    ensures r[|url|] == (if '?' in url then '&' else '?')
    ensures EndsWith(r, Param)
  {
    url + (if '?' in url then "&" else "?") + Param
  }

  /** `Param` after a separator such as `?` or `&` is left as it is. */
  lemma RewriteSeparatedParam(c: char)
    requires !IsDigit(c) && c !in KeyEq
    ensures RewriteIds([c] + Param) == [c] + Param
  {
    CountryPatternIsGood();
    var s := [c] + Param;
    assert !MatchesAt0(KeyEq, s) by {
      assert s[..|KeyEq|][0] == c;
    }
    assert s[1..] == Param + [];
    SubRepThen(KeyEq, Param, []);
  }

  /** The URL built by appending a separator and `Param` holds `tp_country_id`. */
  lemma AppendedHoldsKey(url: string, c: char)
    ensures IsInfix(CountryKey, url + [c] + Param)
  {
    var v := url + [c] + Param;
    assert v[|url| + 1..|url| + 1 + |CountryKey|] == CountryKey;
    assert OccursAt(CountryKey, v, |url| + 1);
  }

  /** Without a query string the second call rewrites the URL's own text. */
  lemma AddZambiaTwiceWithoutQuery(url: string)
    requires '?' !in url
    ensures AddZambiaCountryParam(AddZambiaCountryParam(url)) == RewriteIds(url) + ("?" + Param)
  {
    var tail := "?" + Param;
    var v := url + tail;
    assert AddZambiaCountryParam(url) == v;
    AppendedHoldsKey(url, '?');
    assert v[|url|] == '?';
    RewriteQueriedUrl(v);
    CountryPatternIsGood();
    SubSplits(KeyEq, Param, url, tail);
    RewriteSeparatedParam('?');
  }

  /** A URL with a query string that holds the key is only rewritten. */
  lemma RewriteQueriedUrl(v: string)
    requires '?' in v && IsInfix(CountryKey, v)
    ensures AddZambiaCountryParam(v) == RewriteIds(v)
  {
  }

  /** With a query string but no `tp_country_id`, the second call changes nothing. */
  lemma AddZambiaTwiceAppended(url: string)
    requires '?' in url && !IsInfix(CountryKey, url)
    ensures AddZambiaCountryParam(AddZambiaCountryParam(url)) == AddZambiaCountryParam(url)
  {
    var tail := "&" + Param;
    var v := url + tail;
    assert AddZambiaCountryParam(url) == v;
    AppendedHoldsKey(url, '&');
    var i :| 0 <= i < |url| && url[i] == '?';
    assert v[i] == '?';
    RewriteQueriedUrl(v);
    CountryPatternIsGood();
    SubSplits(KeyEq, Param, url, tail);
    SubWithoutKey(KeyEq, Param, CountryKey, url);
    RewriteSeparatedParam('&');
  }

  /** With a query string that already names a country, the URL is rewritten
      once and then stays as it is. */
  lemma AddZambiaTwiceRewritten(url: string)
    requires '?' in url && IsInfix(CountryKey, url)
    ensures AddZambiaCountryParam(AddZambiaCountryParam(url)) == AddZambiaCountryParam(url)
  {
    CountryPatternIsGood();
    SubKeepsSeparator(KeyEq, Param, '?', url);
    SubKeepsKeyPrefix(KeyEq, Param, CountryKey, url);
    SubIdempotent(KeyEq, Param, url);
  }

  /** Applying `_add_zambia_country_param` twice gives the same URL as once
      exactly when the URL has a query string, or when it has none and every
      `tp_country_id=<digits>` already in it reads 88. Without a query string
      the parameter is appended and then, on the second call, the regular
      expression also rewrites any id that stood in the path. */
  lemma AddZambiaIdempotentIff(url: string)
    ensures AddZambiaCountryParam(AddZambiaCountryParam(url)) == AddZambiaCountryParam(url)
            <==> ('?' in url || RewriteIds(url) == url)
  {
    if '?' !in url {
      AddZambiaTwiceWithoutQuery(url);
      var r := RewriteIds(url);
      if r + ("?" + Param) == url + ("?" + Param) {
        assert r == (r + ("?" + Param))[..|r|];
      }
    } else if !IsInfix(CountryKey, url) {
      AddZambiaTwiceAppended(url);
    } else {
      AddZambiaTwiceRewritten(url);
    }
  }

  /** So the function is not idempotent in every case: a URL without a query
      string whose path holds another country id changes on the second call. */
  lemma AddZambiaNotAlwaysIdempotent()
    ensures var url := "tp_country_id=5";
            AddZambiaCountryParam(AddZambiaCountryParam(url)) != AddZambiaCountryParam(url)
  {
    var url := KeyEq + "5";
    assert url == "tp_country_id=5";
    CountryPatternIsGood();
    assert '?' !in url;
    WholeMatchRewritten(KeyEq, Param, url);
    AddZambiaTwiceWithoutQuery(url);
    assert |Param| != |url|;
  }

  /** A text that is one whole match is replaced by `rep`. */
  lemma WholeMatchRewritten(key: string, rep: string, s: string)
    requires MatchesAt0(key, s) && MatchLen(key, s) == |s|
    ensures SubKeyDigits(key, rep, s) == rep
  {
    assert s[MatchLen(key, s)..] == [];
  }

  /** With a query string, or with no `tp_country_id` at all, the parameter is
      appended, and rus_bot_fast.py builds the same URL. */
  lemma AddZambiaAppendsWhenAbsent(url: string)
    requires '?' !in url || !IsInfix(CountryKey, url)
    ensures AddZambiaCountryParam(url) == url + (if '?' in url then "&" else "?") + Param
    ensures AddZambiaCountryParam(url) == FastParseUrl(url)
  {
  }

  /** rus_bot_fast.py appends a second parameter where rus_bot.py rewrites the
      one already present. */
  lemma FastParseDuplicatesParam()
    ensures FastParseUrl("x?" + Param) == "x?" + Param + "&" + Param
    ensures AddZambiaCountryParam("x?" + Param) == "x?" + Param
  {
    CountryPatternIsGood();
    var url := "x?" + Param;
    assert OccursAt(CountryKey, url, 2);
    assert !MatchesAt0(KeyEq, url) && !MatchesAt0(KeyEq, url[1..]);
    SubSkipsFreePrefix(KeyEq, Param, url, 2);
    assert url[2..] == Param + [];
    SubRepThen(KeyEq, Param, []);
  }
}
