/**
 Reading a cookie from `document.cookie` (`getCookie` in js/main.js): the
 cookie string is split at every `;`, each piece loses its leading spaces, and
 the first piece that begins with `name=` yields the rest of that piece.

 The second half describes the strings a browser hands back, `k1=v1; k2=v2`,
 built from a sequence of entries, and proves that `GetCookie` finds in them
 the value of the first entry with the asked-for key.
 */
module Cookies {
  import opened Common

  // ---------------------------------------------------------------------------
  // String.prototype.split with a one-character separator
  // ---------------------------------------------------------------------------

  /** `s.split(sep)`: the maximal `sep`-free pieces between separators, empty
      ones included; never an empty sequence. */
  function Split(s: string, sep: char): (parts: seq<string>)
    ensures |parts| >= 1
    ensures forall i :: 0 <= i < |parts| ==> sep !in parts[i]
    decreases |s|
  {
    var k := IndexOf(s, sep);
    if k == |s| then [s] else [s[..k]] + Split(s[k + 1..], sep)
  }

  /** `parts.join(sep)`. */
  function Join(parts: seq<string>, sep: char): string {
    if |parts| == 0 then ""
    else if |parts| == 1 then parts[0]
    else parts[0] + [sep] + Join(parts[1..], sep)
  }

  lemma JoinCons(a: string, rest: seq<string>, sep: char)
    requires |rest| >= 1
    ensures Join([a] + rest, sep) == a + [sep] + Join(rest, sep)
  {
    assert ([a] + rest)[1..] == rest;
  }

  lemma SplitAt(s: string, sep: char, k: nat)
    requires k < |s| && s[k] == sep && sep !in s[..k]
    ensures Split(s, sep) == [s[..k]] + Split(s[k + 1..], sep)
  {
    assert forall i :: 0 <= i < k ==> s[i] == s[..k][i];
  }

  /** Joining the pieces of a split gives the string back. */
  lemma {:induction false} JoinSplit(s: string, sep: char)
    ensures Join(Split(s, sep), sep) == s
    decreases |s|
  {
    var k := IndexOf(s, sep);
    if k < |s| {
      var rest := Split(s[k + 1..], sep);
      assert Split(s, sep) == [s[..k]] + rest;
      JoinSplit(s[k + 1..], sep);
      JoinCons(s[..k], rest, sep);
      assert s == s[..k] + [sep] + s[k + 1..];
    }
  }

  lemma IndexOfAfterFreePrefix(a: string, b: string, sep: char)
    requires sep !in a
    ensures IndexOf(a + [sep] + b, sep) == |a|
  {
    var s := a + [sep] + b;
    assert s[|a|] == sep;
  }

  /** The first piece of a split is everything before the first separator. */
  lemma FirstPiece(a: string, b: string, sep: char)
    requires sep !in a
    ensures Split(a + [sep] + b, sep)[0] == a
  {
    IndexOfAfterFreePrefix(a, b, sep);
    assert (a + [sep] + b)[..|a|] == a;
  }

  /** Splitting a join of `sep`-free pieces gives the pieces back. */
  lemma {:induction false} SplitJoin(parts: seq<string>, sep: char)
    requires |parts| >= 1
    requires forall i :: 0 <= i < |parts| ==> sep !in parts[i]
    ensures Split(Join(parts, sep), sep) == parts
  {
    var a := parts[0];
    if |parts| == 1 {
      assert Join(parts, sep) == a;
      assert IndexOf(a, sep) == |a|;
    } else {
      var tail := parts[1..];
      var rest := Join(tail, sep);
      var s := a + [sep] + rest;
      assert parts == [a] + tail;
      JoinCons(a, tail, sep);
      assert Join(parts, sep) == s;
      assert s[..|a|] == a;
      assert s[|a| + 1..] == rest;
      SplitAt(s, sep, |a|);
      assert forall i :: 0 <= i < |tail| ==> tail[i] == parts[i + 1];
      SplitJoin(tail, sep);
    }
  }

  // ---------------------------------------------------------------------------
  // getCookie
  // ---------------------------------------------------------------------------

  /** `while (c.charAt(0) === ' ') c = c.substring(1)`: only the space
      character is removed, and only at the front. */
  function StripLeadingSpaces(c: string): (r: string)
    ensures |r| <= |c| && r == c[|c| - |r|..]
    ensures |r| == 0 || r[0] != ' '
    ensures forall i :: 0 <= i < |c| - |r| ==> c[i] == ' '
  {
    if |c| > 0 && c[0] == ' ' then StripLeadingSpaces(c[1..]) else c
  }

  /** `c.indexOf(nameEQ) === 0` after the spaces are stripped. */
  predicate PieceMatches(piece: string, nameEQ: string) {
    nameEQ <= StripLeadingSpaces(piece)
  }

  /** Index of the first matching piece, `|pieces|` when none matches: where
      the loop of `getCookie` returns. */
  function MatchIndex(pieces: seq<string>, nameEQ: string): (k: nat)
    ensures k <= |pieces|
    ensures k < |pieces| ==> PieceMatches(pieces[k], nameEQ)
    ensures forall j :: 0 <= j < k ==> !PieceMatches(pieces[j], nameEQ)
  {
    if |pieces| == 0 then 0
    else if PieceMatches(pieces[0], nameEQ) then 0
    else
      var k := MatchIndex(pieces[1..], nameEQ);
      assert forall j :: 1 <= j < |pieces| ==> pieces[j] == pieces[1..][j - 1];
      1 + k
  }

  /** `const nameEQ = name + '='`. */
  function NameEq(name: string): string {
    name + "="
  }

  /** No piece begins with `nameEQ`: the loop runs out and answers `null`. */
  predicate NoPieceMatches(pieces: seq<string>, nameEQ: string) {
    forall i :: 0 <= i < |pieces| ==> !PieceMatches(pieces[i], nameEQ)
  }

  /** Piece `i` is the first that begins with `nameEQ`. */
  predicate IsFirstMatch(pieces: seq<string>, nameEQ: string, i: int) {
    && 0 <= i < |pieces| && PieceMatches(pieces[i], nameEQ)
    && forall j :: 0 <= j < i ==> !PieceMatches(pieces[j], nameEQ)
  }

  /** `getCookie(name)` on the cookie string `cookie`; `None` is `null`.
      The answer is the text after `name=` in the first piece that begins
      with it, spaces stripped. */
  function GetCookie(cookie: string, name: string): (r: Option<string>)
    ensures r.None? <==> NoPieceMatches(Split(cookie, ';'), NameEq(name))
    ensures r.Some? ==> exists i :: (IsFirstMatch(Split(cookie, ';'), NameEq(name), i)
      && r.value == StripLeadingSpaces(Split(cookie, ';')[i])[|name| + 1..])
  {
    var pieces := Split(cookie, ';');
    var k := MatchIndex(pieces, NameEq(name));
    if k == |pieces| then None
    else
      assert IsFirstMatch(pieces, NameEq(name), k);
      Some(StripLeadingSpaces(pieces[k])[|name| + 1..])
  }

  // ---------------------------------------------------------------------------
  // Cookie strings as the browser presents them
  // ---------------------------------------------------------------------------

  /** One `key=value` pair of the cookie store. */
  datatype Entry = Entry(key: string, value: string)

  /** A pair a browser can present unambiguously: no `;` anywhere, no `=` in
      the key, and the key does not start with a space. */
  predicate WellFormedEntry(e: Entry) {
    && ';' !in e.key && '=' !in e.key && ';' !in e.value
    && (|e.key| == 0 || e.key[0] != ' ')
  }

  predicate WellFormedEntries(es: seq<Entry>) {
    forall i :: 0 <= i < |es| ==> WellFormedEntry(es[i])
  }

  function Pair(e: Entry): string {
    e.key + "=" + e.value
  }

  /** The pieces after the first, each preceded by the space of `"; "`. */
  function SpacedPieces(es: seq<Entry>): (ps: seq<string>)
    ensures |ps| == |es|
    ensures forall i :: 0 <= i < |es| ==> ps[i] == " " + Pair(es[i])
  {
    if |es| == 0 then [] else [" " + Pair(es[0])] + SpacedPieces(es[1..])
  }

  function Pieces(es: seq<Entry>): (ps: seq<string>)
    ensures |ps| == |es|
  {
    if |es| == 0 then [] else [Pair(es[0])] + SpacedPieces(es[1..])
  }

  /** `document.cookie` for the entries `es`: `k1=v1; k2=v2; ...`. */
  function Render(es: seq<Entry>): string {
    Join(Pieces(es), ';')
  }

  /** The value of the first entry whose key is `name`. */
  function Lookup(es: seq<Entry>, name: string): (r: Option<string>)
    ensures r.None? <==> forall i :: 0 <= i < |es| ==> es[i].key != name
  {
    if |es| == 0 then None
    else if es[0].key == name then Some(es[0].value)
    else
      var r := Lookup(es[1..], name);
      assert forall i :: 1 <= i < |es| ==> es[i] == es[1..][i - 1];
      r
  }

  /** A pair matches `name=` exactly when its key is `name`; so an entry
      `cookieConsentX=...` never matches the name `cookieConsent`. */
  lemma PairMatchesIffSameKey(e: Entry, name: string)
    requires '=' !in e.key && '=' !in name
    ensures NameEq(name) <= Pair(e) <==> e.key == name
  {
    var p := Pair(e);
    if e.key == name {
      assert p == NameEq(name) + e.value;
    }
    if NameEq(name) <= p {
      assert p[|name|] == '=';
      assert forall i :: 0 <= i < |e.key| ==> p[i] == e.key[i];
      assert forall i :: 0 <= i < |name| ==> p[i] == name[i];
      assert p[|e.key|] == '=';
      assert e.key == p[..|name|];
    }
  }

  lemma StripPair(e: Entry)
    requires WellFormedEntry(e)
    ensures StripLeadingSpaces(Pair(e)) == Pair(e)
    ensures StripLeadingSpaces(" " + Pair(e)) == Pair(e)
  {
    assert (" " + Pair(e))[1..] == Pair(e);
    if |e.key| == 0 {
      assert Pair(e)[0] == '=';
    } else {
      assert Pair(e)[0] == e.key[0];
    }
  }

  lemma PairSeparatorFree(e: Entry)
    requires WellFormedEntry(e)
    ensures ';' !in Pair(e)
  {
    assert forall k :: 0 <= k < |Pair(e)| ==>
      Pair(e)[k] == (if k < |e.key| then e.key[k] else if k == |e.key| then '=' else e.value[k - |e.key| - 1]);
  }

  /** Each piece of a rendered cookie string is free of `;` and, once its
      leading space is stripped, is exactly its entry's `key=value`. */
  lemma PiecesStripToPairs(es: seq<Entry>)
    requires WellFormedEntries(es)
    ensures forall i :: 0 <= i < |es| ==> ';' !in Pieces(es)[i]
    ensures forall i :: 0 <= i < |es| ==> StripLeadingSpaces(Pieces(es)[i]) == Pair(es[i])
  {
    forall i | 0 <= i < |es|
      ensures ';' !in Pieces(es)[i] && StripLeadingSpaces(Pieces(es)[i]) == Pair(es[i])
    {
      PairSeparatorFree(es[i]);
      StripPair(es[i]);
      if i > 0 {
        assert Pieces(es)[i] == SpacedPieces(es[1..])[i - 1] == " " + Pair(es[i]);
      }
    }
  }

  /** `Lookup` answers from the first entry whose key is `name`. */
  lemma {:induction false} LookupAtFirstKey(es: seq<Entry>, name: string, k: nat)
    requires k <= |es|
    requires forall j :: 0 <= j < k ==> es[j].key != name
    requires k < |es| ==> es[k].key == name
    ensures Lookup(es, name) == if k == |es| then None else Some(es[k].value)
  {
    if |es| > 0 && k > 0 {
      LookupAtFirstKey(es[1..], name, k - 1);
    }
  }

  lemma GetCookieOfEmpty(name: string)
    ensures GetCookie("", name) == None
  {
    assert Split("", ';') == [""];
    assert !PieceMatches("", NameEq(name));
  }

  /** In a cookie string of well-formed entries, `GetCookie` returns the value
      of the first entry whose key is `name`, and `None` when there is none. */
  lemma GetCookieOfRendered(es: seq<Entry>, name: string)
    requires WellFormedEntries(es) && '=' !in name
    ensures GetCookie(Render(es), name) == Lookup(es, name)
  {
    if |es| == 0 {
      GetCookieOfEmpty(name);
    } else {
      var pieces := Pieces(es);
      PiecesStripToPairs(es);
      SplitJoin(pieces, ';');
      assert Split(Render(es), ';') == pieces;
      forall i | 0 <= i < |es|
        ensures PieceMatches(pieces[i], NameEq(name)) <==> es[i].key == name
      {
        PairMatchesIffSameKey(es[i], name);
      }
      var k := MatchIndex(pieces, NameEq(name));
      LookupAtFirstKey(es, name, k);
      if k < |es| {
        assert StripLeadingSpaces(pieces[k]) == Pair(es[k]);
        assert Pair(es[k])[|name| + 1..] == es[k].value;
        assert GetCookie(Render(es), name) == Some(es[k].value);
      } else {
        assert GetCookie(Render(es), name) == None;
      }
    }
  }

  /** A longer name with the asked-for name as its prefix is not a match. */
  lemma LongerNameNotMatched()
    ensures GetCookie("cookieConsentX=accepted", "cookieConsent") == None
  {
    var e := Entry("cookieConsentX", "accepted");
    assert Render([e]) == "cookieConsentX=accepted";
    GetCookieOfRendered([e], "cookieConsent");
  }
}
