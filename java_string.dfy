/**
 * The few java.lang.String operations the artifact reader relies on:
 * lastIndexOf(char), endsWith and split with a one-character separator.
 */
module JavaString {

  /** String.lastIndexOf(c): the index of the last occurrence of c in s, or -1 when there is none. */
  function LastIndexOf(s: string, c: char): (r: int)
    ensures -1 <= r < |s|
    ensures r == -1 <==> c !in s
    ensures r >= 0 ==> s[r] == c
    ensures forall j :: r < j < |s| ==> s[j] != c
  {
    if s == [] then -1
    else if s[|s| - 1] == c then |s| - 1
    else LastIndexOf(s[..|s| - 1], c)
  }

  /** String.endsWith(suffix): the last |suffix| characters of s are suffix, compared exactly. */
  predicate EndsWith(s: string, suffix: string) {
    |suffix| <= |s| && s[|s| - |suffix|..] == suffix
  }

  /** endsWith agrees with "s is some string followed by suffix". */
  lemma EndsWithIffConcat(s: string, suffix: string)
    ensures EndsWith(s, suffix) <==> exists p :: s == p + suffix
  {
    if EndsWith(s, suffix) {
      assert s == s[..|s| - |suffix|] + suffix;
    }
    if exists p :: s == p + suffix {
      var p :| s == p + suffix;
      assert s[|p|..] == suffix;
    }
  }

  /** Every piece of s between occurrences of c, trailing and leading empty pieces included. */
  function SplitAll(s: string, c: char): (pieces: seq<string>)
    ensures |pieces| >= 1
    ensures forall i :: 0 <= i < |pieces| ==> c !in pieces[i]
  {
    if s == [] then [""]
    else
      var rest := SplitAll(s[1..], c);
      if s[0] == c then [""] + rest
      else [[s[0]] + rest[0]] + rest[1..]
  }

  /** Joins non-empty list of pieces with c between consecutive pieces. */
  function Join(pieces: seq<string>, c: char): string
    requires |pieces| >= 1
  {
    if |pieces| == 1 then pieces[0] else pieces[0] + [c] + Join(pieces[1..], c)
  }

  /** Splitting and joining back gives the original string. */
  lemma {:induction false} JoinSplitAll(s: string, c: char)
    ensures Join(SplitAll(s, c), c) == s
  {
    if s != [] {
      var rest := SplitAll(s[1..], c);
      JoinSplitAll(s[1..], c);
      if s[0] != c {
        if |rest| == 1 {
          assert [s[0]] + rest[0] == s;
        } else {
          assert rest[1..][1..] == rest[2..];
          calc {
            Join(SplitAll(s, c), c);
            ([s[0]] + rest[0]) + [c] + Join(rest[1..], c);
            [s[0]] + (rest[0] + [c] + Join(rest[1..], c));
            [s[0]] + Join(rest, c);
            s;
          }
        }
      }
    }
  }

  /** Splitting a string with no separator in front of the separator and the rest. */
  lemma {:induction false} SplitAllPrefix(x: string, c: char, y: string)
    requires c !in x
    ensures SplitAll(x + y, c) == [x + SplitAll(y, c)[0]] + SplitAll(y, c)[1..]
  {
    var ys := SplitAll(y, c);
    if x == [] {
      assert x + y == y;
      assert x + ys[0] == ys[0];
    } else {
      assert (x + y)[0] == x[0];
      assert (x + y)[1..] == x[1..] + y;
      SplitAllPrefix(x[1..], c, y);
      var rest := SplitAll(x[1..] + y, c);
      assert rest[0] == x[1..] + ys[0];
      assert rest[1..] == ys[1..];
      assert [x[0]] + (x[1..] + ys[0]) == x + ys[0];
    }
  }

  /** Joining pieces free of c and splitting again gives the pieces back. */
  lemma {:induction false} SplitAllJoin(pieces: seq<string>, c: char)
    requires |pieces| >= 1
    requires forall i :: 0 <= i < |pieces| ==> c !in pieces[i]
    ensures SplitAll(Join(pieces, c), c) == pieces
  {
    if |pieces| == 1 {
      SplitAllPrefix(pieces[0], c, []);
      assert pieces[0] + [] == pieces[0];
    } else {
      var tail := Join(pieces[1..], c);
      SplitAllJoin(pieces[1..], c);
      assert pieces[0] + [c] + tail == pieces[0] + ([c] + tail);
      SplitAllPrefix(pieces[0], c, [c] + tail);
      assert ([c] + tail)[1..] == tail;
      var rest := SplitAll([c] + tail, c);
      assert rest == [""] + pieces[1..];
      assert rest[0] == "" && rest[1..] == pieces[1..];
      assert pieces[0] + "" == pieces[0];
      assert pieces == [pieces[0]] + pieces[1..];
    }
  }

  /** The first piece is the longest prefix of s free of c. */
  lemma {:induction false} SplitAllFirst(s: string, c: char)
    ensures var p := SplitAll(s, c)[0];
            |p| <= |s| && s[..|p|] == p && (|p| == |s| || s[|p|] == c)
  {
    if s != [] && s[0] != c {
      SplitAllFirst(s[1..], c);
    }
  }

  /** The longest prefix of pieces that does not end in an empty string. */
  function DropTrailingEmpty(pieces: seq<string>): (r: seq<string>)
    ensures |r| <= |pieces| && r == pieces[..|r|]
    ensures r == [] || r[|r| - 1] != ""
    ensures forall i :: |r| <= i < |pieces| ==> pieces[i] == ""
  {
    if pieces != [] && pieces[|pieces| - 1] == "" then DropTrailingEmpty(pieces[..|pieces| - 1])
    else pieces
  }

  /**
   * String.split(String.valueOf(c)) with limit 0: a string without the separator
   * is its own only piece; otherwise all pieces with the trailing empty ones removed
   * (a leading empty piece is kept).
   */
  function Split(s: string, c: char): (tokens: seq<string>)
    ensures forall i :: 0 <= i < |tokens| ==> c !in tokens[i]
    ensures c !in s ==> tokens == [s]
    ensures c in s ==> tokens == [] || tokens[|tokens| - 1] != ""
  {
    if c !in s then [s] else DropTrailingEmpty(SplitAll(s, c))
  }

  /** Split keeps a prefix of the pieces of SplitAll; only empty pieces are dropped. */
  lemma SplitIsPrefixOfPieces(s: string, c: char)
    requires s != []
    ensures var all := SplitAll(s, c);
            var tokens := Split(s, c);
            |tokens| <= |all| && tokens == all[..|tokens|]
            && (tokens == [] || tokens[|tokens| - 1] != "")
            && forall i :: |tokens| <= i < |all| ==> all[i] == ""
  {
    if c !in s {
      SplitAllPrefix(s, c, []);
      assert s + [] == s;
    }
  }
}
