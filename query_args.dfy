/** `current_url( $remove )`: the current admin URL with one query parameter
    stripped by `preg_replace( '/([?&])NAME=[^&]+(&|$)/', '$1', $url )`,
    written out as a left-to-right scan. */
module QueryArgs {
  import opened PhpValues

  predicate IsDelimiter(c: char) {
    c == '?' || c == '&'
  }

  /** `[^&]`: a character that can belong to a parameter value. */
  predicate IsValueChar(c: char) {
    c != '&'
  }

  predicate StartsWith(s: string, prefix: string) {
    |prefix| <= |s| && s[..|prefix|] == prefix
  }

  /** Length of the text the pattern matches when it is tried at the start of
      `s`: a delimiter, `name=`, a non-empty run of characters other than `&`
      (greedy, so it stops at `&` or the end) and then one `&` if there is one.
      0 when the pattern does not match there. */
  function MatchLength(s: string, name: string): (m: nat)
    ensures m <= |s|
    ensures m == 0 || m >= |name| + 3
  {
    if |s| > 0 && IsDelimiter(s[0]) && StartsWith(s[1..], name + "=") then
      var rest := s[|name| + 2..];
      var v := Span(rest, IsValueChar);
      if v == 0 then 0 else |name| + 2 + v + (if v < |rest| then 1 else 0)
    else 0
  }

  /** The substitution: every match, found scanning left to right and resuming
      after the end of the previous match, is replaced by its delimiter. */
  function Strip(s: string, name: string): (r: string)
    ensures |r| <= |s|
    decreases |s|
  {
    if s == [] then []
    else
      var m := MatchLength(s, name);
      if m > 0 then [s[0]] + Strip(s[m..], name)
      else [s[0]] + Strip(s[1..], name)
  }

  /** `current_url( $remove )` on the URL the host builds from the current
      page and query string; a falsy `$remove` ("" or "0") strips nothing. */
  function CurrentUrl(url: string, remove: string): (r: string) {
    if StringTruthy(remove) then Strip(url, remove) else url
  }

  /** The URL comes back unchanged exactly when the pattern matches at no
      position. */
  lemma {:induction false} StripUnchanged(s: string, name: string)
    ensures Strip(s, name) == s <==> forall i :: 0 <= i < |s| ==> MatchLength(s[i..], name) == 0
  {
    if forall i :: 0 <= i < |s| ==> MatchLength(s[i..], name) == 0 {
      StripNoMatch(s, name);
    } else {
      var i :| 0 <= i < |s| && MatchLength(s[i..], name) > 0;
      StripShorter(s, name, i);
    }
  }

  /** `current_url( $remove )` returns the URL as it is exactly when `$remove`
      is falsy or names a parameter the pattern finds nowhere. */
  lemma CurrentUrlUnchanged(url: string, name: string)
    ensures CurrentUrl(url, name) == url <==>
              !StringTruthy(name) || forall i :: 0 <= i < |url| ==> MatchLength(url[i..], name) == 0
  {
    if StringTruthy(name) {
      StripUnchanged(url, name);
    }
  }

  lemma {:induction false} StripNoMatch(s: string, name: string)
    requires forall i :: 0 <= i < |s| ==> MatchLength(s[i..], name) == 0
    ensures Strip(s, name) == s
  {
    if s != [] {
      assert s[0..] == s;
      forall i | 0 <= i < |s| - 1 ensures MatchLength(s[1..][i..], name) == 0 {
        assert s[1..][i..] == s[i + 1..];
      }
      StripNoMatch(s[1..], name);
    }
  }

  /** Wherever the pattern matches, the result is strictly shorter. */
  lemma {:induction false} StripShorter(s: string, name: string, i: nat)
    requires i < |s| && MatchLength(s[i..], name) > 0
    ensures |Strip(s, name)| < |s|
    decreases i
  {
    if MatchLength(s, name) == 0 {
      assert i > 0 by {
        assert s[0..] == s;
      }
      assert s[1..][i - 1..] == s[i..];
      StripShorter(s[1..], name, i - 1);
    }
  }

  /** A URL without `?` or `&` is left as it is. */
  lemma StripWithoutDelimiter(s: string, name: string)
    requires forall i :: 0 <= i < |s| ==> !IsDelimiter(s[i])
    ensures Strip(s, name) == s
  {
    forall i | 0 <= i < |s| ensures MatchLength(s[i..], name) == 0 {
      assert s[i..][0] == s[i];
    }
    StripNoMatch(s, name);
  }

  /** The first parameter loses its `name=value&` and keeps the `?`. */
  lemma StripFirstParameter()
    ensures Strip("?curtain=1&page=x", "curtain") == "?page=x"
  {
    var s := "?curtain=1&page=x";
    MatchOfCurtainOne(s, "page=x");
    StripWithoutDelimiter("page=x", "curtain");
    StripAfterMatch(s, "curtain");
  }

  /** `?curtain=1&` or `&curtain=1&` in front of any rest is an 11-character
      match. */
  lemma MatchOfCurtainOne(s: string, rest: string)
    requires |s| > 0 && IsDelimiter(s[0]) && s == [s[0]] + "curtain=1&" + rest
    ensures MatchLength(s, "curtain") == 11 && s[11..] == rest
  {
    assert StartsWith(s[1..], "curtain=");
    assert s[9..] == "1&" + rest;
    assert Span("1&" + rest, IsValueChar) == 1;
  }

  lemma StripAfterMatch(s: string, name: string)
    requires MatchLength(s, name) > 0
    ensures Strip(s, name) == [s[0]] + Strip(s[MatchLength(s, name)..], name)
  {
  }

  /** Text in which the pattern cannot start is copied over unchanged. */
  lemma {:induction false} StripPrefix(p: string, t: string, name: string)
    requires forall i :: 0 <= i < |p| ==> MatchLength((p + t)[i..], name) == 0
    ensures Strip(p + t, name) == p + Strip(t, name)
  {
    if p != [] {
      var q := p[1..];
      NoMatchInRest(p, t, name);
      StripCopiesFirst(p, t, name);
      StripPrefix(q, t, name);
      assert Strip(p + t, name) == [p[0]] + (q + Strip(t, name));
      assert [p[0]] + q == p;
    } else {
      assert p + t == t;
      assert p + Strip(t, name) == Strip(t, name);
    }
  }

  lemma StripCopiesFirst(p: string, t: string, name: string)
    requires p != [] && MatchLength(p + t, name) == 0
    ensures Strip(p + t, name) == [p[0]] + Strip(p[1..] + t, name)
  {
    assert (p + t)[1..] == p[1..] + t;
  }

  lemma NoMatchInRest(p: string, t: string, name: string)
    requires p != []
    requires forall i :: 0 <= i < |p| ==> MatchLength((p + t)[i..], name) == 0
    ensures MatchLength(p + t, name) == 0
    ensures forall i :: 0 <= i < |p| - 1 ==> MatchLength((p[1..] + t)[i..], name) == 0
  {
    assert (p + t)[0..] == p + t;
    forall i | 0 <= i < |p| - 1 ensures MatchLength((p[1..] + t)[i..], name) == 0 {
      assert (p[1..] + t)[i..] == (p + t)[i + 1..];
    }
  }

  /** The `&` swallowed by one match is no longer there to start the next, so
      of two adjacent occurrences only the first is removed. */
  lemma StripAdjacentOccurrences()
    ensures Strip("?curtain=1&curtain=2", "curtain") == "?curtain=2"
  {
    var s := "?curtain=1&curtain=2";
    MatchOfCurtainOne(s, "curtain=2");
    StripWithoutDelimiter("curtain=2", "curtain");
    StripAfterMatch(s, "curtain");
  }
}
