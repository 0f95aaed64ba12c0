/** The bearer-token extraction of the authentication strategy. */
module AuthStrategy {
  import opened Results
  import opened Messages

  /** Number of occurrences of `c` in `s`. */
  function Count(s: string, c: char): (n: nat)
    ensures n <= |s|
    ensures n == 0 <==> c !in s
  {
    if |s| == 0 then 0 else (if s[0] == c then 1 else 0) + Count(s[1..], c)
  }

  /**
   * `String.prototype.split` with a one-character separator: the pieces
   * between separators, empty ones included, so there is always one more
   * piece than there are separators.
   */
  function Split(s: string, sep: char): (r: seq<string>)
    ensures |r| == Count(s, sep) + 1
    ensures forall w :: w in r ==> sep !in w
  {
    if |s| == 0 then [""]
    else
      var rest := Split(s[1..], sep);
      if s[0] == sep then [""] + rest
      else [[s[0]] + rest[0]] + rest[1..]
  }

  /** `Array.prototype.join` with a one-character separator. */
  function Join(words: seq<string>, sep: char): (r: string)
    requires |words| > 0
  {
    if |words| == 1 then words[0] else words[0] + [sep] + Join(words[1..], sep)
  }

  /** Joining the pieces of a split gives the original string back. */
  lemma {:induction false} JoinSplit(s: string, sep: char)
    ensures Join(Split(s, sep), sep) == s
  {
    if |s| > 0 {
      var rest := Split(s[1..], sep);
      JoinSplit(s[1..], sep);
      if s[0] != sep && |rest| > 1 {
        assert Join(rest, sep) == rest[0] + [sep] + Join(rest[1..], sep);
        assert [[s[0]] + rest[0]] + rest[1..] == Split(s, sep);
      }
    }
  }

  /** Splitting a join of separator-free pieces gives the pieces back. */
  lemma {:induction false} SplitJoin(words: seq<string>, sep: char)
    requires |words| > 0 && forall w :: w in words ==> sep !in w
    ensures Split(Join(words, sep), sep) == words
  {
    assert words[0] in words;
    if |words| == 1 {
      SplitWord(words[0], sep);
    } else {
      assert forall w :: w in words[1..] ==> w in words;
      SplitJoin(words[1..], sep);
      SplitPrefix(words[0], sep, Join(words[1..], sep));
    }
  }

  /** A separator-free string splits into itself. */
  lemma {:induction false} SplitWord(w: string, sep: char)
    requires sep !in w
    ensures Split(w, sep) == [w]
  {
    if |w| > 0 {
      SplitWord(w[1..], sep);
      assert [w[0]] + w[1..] == w;
    }
  }

  /** A separator-free `w` and a separator in front of `rest` add `w` as a first piece. */
  lemma {:induction false} SplitPrefix(w: string, sep: char, rest: string)
    requires sep !in w
    ensures Split(w + [sep] + rest, sep) == [w] + Split(rest, sep)
  {
    var s := w + [sep] + rest;
    if |w| == 0 {
      assert s[0] == sep && s[1..] == rest;
    } else {
      assert s[0] == w[0] && s[1..] == w[1..] + [sep] + rest;
      SplitPrefix(w[1..], sep, rest);
      assert [w[0]] + w[1..] == w;
    }
  }

  predicate StartsWith(s: string, prefix: string) {
    |prefix| <= |s| && s[..|prefix|] == prefix
  }

  /**
   * The token of an `Authorization` header. A missing or empty header, one
   * not starting with "Bearer" (no space is required after it), and one that
   * does not split on ' ' into exactly two pieces are each refused; the
   * second piece is the token.
   */
  function ExtractCredentials(header: Option<string>): (r: Result<string>)
    ensures header.None? || header == Some("") ==> r == Err(HeaderNotFound)
    ensures header.Some? && header.value != "" && !StartsWith(header.value, "Bearer") ==> r == Err(NotBearer)
    ensures r.Ok? <==>
              header.Some? && header.value != "" && StartsWith(header.value, "Bearer") && Count(header.value, ' ') == 1
    ensures r.Err? ==> r.msg in {HeaderNotFound, NotBearer, TooManyParts}
    ensures r.Ok? ==> ' ' !in r.value
  {
    if header.None? || header.value == "" then Err(HeaderNotFound)
    else
      var authenticationHeader := header.value;
      if !StartsWith(authenticationHeader, "Bearer") then Err(NotBearer)
      else
        var words := Split(authenticationHeader, ' ');
        if |words| != 2 then Err(TooManyParts)
        else
          assert words[1] in words;
          Ok(words[1])
  }

  /** A space-free first word starting with "Bearer", one space and a space-free token: the token is extracted. */
  lemma {:induction false} ExtractCredentialsOfWords(w: string, t: string)
    requires ' ' !in w && ' ' !in t && StartsWith(w, "Bearer")
    ensures ExtractCredentials(Some(w + " " + t)) == Ok(t)
  {
    var h := w + " " + t;
    assert h == Join([w, t], ' ');
    assert forall v :: v in [w, t] ==> v == w || v == t;
    SplitJoin([w, t], ' ');
    assert h[..6] == w[..6];
  }

  /** Round trip: a space-free token behind "Bearer " comes back unchanged. */
  lemma ExtractCredentialsRoundTrip(t: string)
    requires ' ' !in t
    ensures ExtractCredentials(Some("Bearer " + t)) == Ok(t)
  {
    assert "Bearer " + t == "Bearer" + " " + t;
    ExtractCredentialsOfWords("Bearer", t);
  }

  /**
   * Conversely, an accepted header is a space-free first word starting with
   * "Bearer", one space, and the token.
   */
  lemma {:induction false} ExtractCredentialsAccepts(h: string, t: string)
    requires ExtractCredentials(Some(h)) == Ok(t)
    ensures ' ' !in t
    ensures exists w :: h == w + " " + t && ' ' !in w && StartsWith(w, "Bearer")
  {
    var words := Split(h, ' ');
    JoinSplit(h, ' ');
    assert words[0] in words && words[1] in words;
    assert Join(words[1..], ' ') == words[1];
    assert h == words[0] + " " + t;
    var w := words[0];
    assert |w| >= 6;
    assert w[..6] == h[..6];
  }

  /** The prefix test needs no space after "Bearer": "Bearerx y" yields "y". */
  lemma BearerWithoutSpace()
    ensures ExtractCredentials(Some("Bearerx y")) == Ok("y")
  {
    assert "Bearerx y" == "Bearerx" + " " + "y";
    ExtractCredentialsOfWords("Bearerx", "y");
  }

  /** "Bearer " with nothing after it yields the empty token. */
  lemma BearerEmptyToken()
    ensures ExtractCredentials(Some("Bearer ")) == Ok("")
  {
    ExtractCredentialsRoundTrip("");
  }
}
