/**
 The cookie-consent flag (js/main.js): on page load the banner is scheduled
 when it exists and `getCookie('cookieConsent')` is falsy; the accept and
 decline buttons write `cookieConsent=accepted` or `cookieConsent=declined`
 with `setCookie`.

 The browser's cookie store is modelled as a sequence of entries, rendered
 into `document.cookie` by `Cookies.Render`; an assignment to
 `document.cookie` stores its leading `name=value` pair, replacing the entry
 of the same name or appending a new one. The expiry date is an opaque
 attribute string supplied by the caller, and whether the browser accepts
 cookies at all is a flag: a refused assignment is silently dropped.
 */
module Consent {
  import opened Common
  import opened Cookies

  /** The one cookie the page sets and reads. */
  const ConsentName: string := "cookieConsent"

  datatype Decision = Accepted | Declined

  /** The value stored for a decision. */
  function DecisionValue(d: Decision): string {
    match d
    case Accepted => "accepted"
    case Declined => "declined"
  }

  /** `!v` for the result of `getCookie`: `null` and `""` are falsy. */
  predicate Falsy(v: Option<string>) {
    v.None? || v.value == ""
  }

  /** No decision can be read from the pieces: none, spaces stripped, begins
      with `name=`, or the first that does is exactly `name=` (a stored empty
      value). */
  predicate UndecidedIn(pieces: seq<string>, name: string) {
    || NoPieceMatches(pieces, NameEq(name))
    || (exists i :: 0 <= i < |pieces| && IsFirstMatch(pieces, NameEq(name), i)
          && StripLeadingSpaces(pieces[i]) == NameEq(name))
  }

  /** No consent decision can be read from `cookie`. */
  predicate Undecided(cookie: string) {
    UndecidedIn(Split(cookie, ';'), ConsentName)
  }

  /** For any answer that meets the contract of `getCookie` on `pieces`, the
      falsy test is exactly "undecided". */
  lemma FalsyIffUndecidedIn(pieces: seq<string>, name: string, v: Option<string>)
    requires v.None? <==> NoPieceMatches(pieces, NameEq(name))
    requires v.Some? ==> exists i :: (IsFirstMatch(pieces, NameEq(name), i)
      && v.value == StripLeadingSpaces(pieces[i])[|name| + 1..])
    ensures Falsy(v) <==> UndecidedIn(pieces, name)
  {
    var nameEQ := NameEq(name);
    if v.Some? {
      var i :| IsFirstMatch(pieces, nameEQ, i)
        && v.value == StripLeadingSpaces(pieces[i])[|name| + 1..];
      RestEmptyIffExact(StripLeadingSpaces(pieces[i]), nameEQ);
      forall j | 0 <= j < |pieces| && IsFirstMatch(pieces, nameEQ, j)
        ensures j == i
      {
        FirstMatchUnique(pieces, nameEQ, i, j);
      }
    }
  }

  lemma RestEmptyIffExact(s: string, prefix: string)
    requires prefix <= s
    ensures s[|prefix|..] == "" <==> s == prefix
  {
  }

  lemma FirstMatchUnique(pieces: seq<string>, nameEQ: string, i: int, j: int)
    requires IsFirstMatch(pieces, nameEQ, i) && IsFirstMatch(pieces, nameEQ, j)
    ensures i == j
  {
  }

  /** `showCookieConsent`: whether the banner is scheduled to appear (after the
      one-second delay, which is not modelled). */
  function ShouldPrompt(bannerPresent: bool, cookie: string): (r: bool)
    ensures r <==> bannerPresent && Undecided(cookie)
  {
    FalsyIffUndecidedIn(Split(cookie, ';'), ConsentName, GetCookie(cookie, ConsentName));
    bannerPresent && Falsy(GetCookie(cookie, ConsentName))
  }

  /** The string `setCookie(name, value, days)` assigns to `document.cookie`;
      `expires` stands for `expires.toUTCString()`. Whatever the expiry text,
      its first `;`-piece is the pair `name=value`. */
  function Assignment(name: string, value: string, expires: string): (a: string)
    ensures ';' !in name && ';' !in value ==> Split(a, ';')[0] == name + "=" + value
  {
    var attributes := "expires=" + expires + ";path=/;SameSite=Lax";
    AssignmentFirstPiece(name, value, attributes);
    name + "=" + value + ";" + attributes
  }

  lemma AssignmentFirstPiece(name: string, value: string, attributes: string)
    ensures ';' !in name && ';' !in value ==>
      Split(name + "=" + value + ";" + attributes, ';')[0] == name + "=" + value
  {
    if ';' !in name && ';' !in value {
      var pair := name + "=" + value;
      NotInConcat(name, "=", ';');
      NotInConcat(name + "=", value, ';');
      FirstPiece(pair, attributes, ';');
      assert pair + [';'] + attributes == name + "=" + value + ";" + attributes;
    }
  }

  // ---------------------------------------------------------------------------
  // The cookie store
  // ---------------------------------------------------------------------------

  /** Stores `key=value`: the first entry with that key is replaced in place,
      otherwise the pair is appended. */
  function Store(jar: seq<Entry>, key: string, value: string): (r: seq<Entry>)
    ensures |r| == |jar| || |r| == |jar| + 1
    ensures forall i :: 0 <= i < |jar| && jar[i].key != key ==> r[i] == jar[i]
  {
    if |jar| == 0 then [Entry(key, value)]
    else if jar[0].key == key then [Entry(key, value)] + jar[1..]
    else [jar[0]] + Store(jar[1..], key, value)
  }

  /** `document.cookie = assignment`: the pair before the first `;` is stored;
      an assignment without `=` in that pair is ignored. */
  function Assign(jar: seq<Entry>, assignment: string): seq<Entry> {
    var pair := Split(assignment, ';')[0];
    var k := IndexOf(pair, '=');
    if k == |pair| then jar else Store(jar, pair[..k], pair[k + 1..])
  }

  /** A click on the accept or decline button. `enabled` is false when the
      browser refuses cookies: the assignment is then silently dropped. With
      cookies enabled the decision is stored under the consent name, whatever
      the expiry text. */
  function Decide(jar: seq<Entry>, d: Decision, expires: string, enabled: bool): (r: seq<Entry>)
    ensures enabled ==> r == Store(jar, ConsentName, DecisionValue(d))
    ensures !enabled ==> r == jar
  {
    if enabled then
      var v := DecisionValue(d);
      assert ';' !in ConsentName && '=' !in ConsentName && ';' !in v;
      AssignStoresPair(jar, Assignment(ConsentName, v, expires), ConsentName, v);
      Assign(jar, Assignment(ConsentName, v, expires))
    else jar
  }

  // ---------------------------------------------------------------------------
  // Properties
  // ---------------------------------------------------------------------------

  /** After storing, the key reads back as the stored value and every other
      key reads back as before. */
  lemma {:induction false} StoreThenLookup(jar: seq<Entry>, key: string, value: string)
    ensures Lookup(Store(jar, key, value), key) == Some(value)
    ensures forall other :: other != key ==> Lookup(Store(jar, key, value), other) == Lookup(jar, other)
  {
    if |jar| > 0 && jar[0].key != key {
      StoreThenLookup(jar[1..], key, value);
      assert Store(jar, key, value)[1..] == Store(jar[1..], key, value);
    }
    if |jar| > 0 && jar[0].key == key {
      assert Store(jar, key, value)[1..] == jar[1..];
    }
  }

  lemma {:induction false} StoreKeepsWellFormed(jar: seq<Entry>, key: string, value: string)
    requires WellFormedEntries(jar) && WellFormedEntry(Entry(key, value))
    ensures WellFormedEntries(Store(jar, key, value))
  {
    if |jar| > 0 && jar[0].key != key {
      StoreKeepsWellFormed(jar[1..], key, value);
      assert forall i :: 1 <= i < |Store(jar, key, value)| ==>
        Store(jar, key, value)[i] == Store(jar[1..], key, value)[i - 1];
    }
  }

  lemma NotInConcat(a: string, b: string, c: char)
    requires c !in a && c !in b
    ensures c !in a + b
  {
    assert forall x :: x in a + b ==> x in a || x in b;
  }

  lemma AssignmentIsJoin(name: string, value: string, expires: string)
    ensures Assignment(name, value, expires)
         == Join([name + "=" + value, "expires=" + expires, "path=/", "SameSite=Lax"], ';')
  {
    var p0, p1 := name + "=" + value, "expires=" + expires;
    var last := Join(["path=/", "SameSite=Lax"], ';');
    assert last == "path=/;SameSite=Lax" by {
      JoinCons("path=/", ["SameSite=Lax"], ';');
    }
    JoinCons(p1, ["path=/", "SameSite=Lax"], ';');
    assert [p1] + ["path=/", "SameSite=Lax"] == [p1, "path=/", "SameSite=Lax"];
    JoinCons(p0, [p1, "path=/", "SameSite=Lax"], ';');
    assert [p0] + [p1, "path=/", "SameSite=Lax"] == [p0, p1, "path=/", "SameSite=Lax"];
    assert [';'] + p1 == ";expires=" + expires;
    assert [';'] + last == ";path=/;SameSite=Lax";
  }

  /** The assignment `setCookie` writes splits into the pair and its three
      attributes. */
  lemma AssignmentPieces(name: string, value: string, expires: string)
    requires ';' !in name && ';' !in value && ';' !in expires
    ensures Split(Assignment(name, value, expires), ';')
         == [name + "=" + value, "expires=" + expires, "path=/", "SameSite=Lax"]
  {
    var parts := [name + "=" + value, "expires=" + expires, "path=/", "SameSite=Lax"];
    NotInConcat(name, "=", ';');
    NotInConcat(name + "=", value, ';');
    NotInConcat("expires=", expires, ';');
    AssignmentIsJoin(name, value, expires);
    SplitJoin(parts, ';');
  }

  /** An assignment whose leading piece is `key=value` stores that pair. */
  lemma AssignStoresPair(jar: seq<Entry>, assignment: string, key: string, value: string)
    requires '=' !in key
    requires Split(assignment, ';')[0] == key + "=" + value
    ensures Assign(jar, assignment) == Store(jar, key, value)
  {
    var pair := key + "=" + value;
    assert pair == key + ['='] + value;
    IndexOfAfterFreePrefix(key, value, '=');
    assert pair[..|key|] == key;
    assert pair[|key| + 1..] == value;
  }

  /** After the accept (or decline) click the consent cookie reads back as
      `accepted` (or `declined`), and the banner is no longer scheduled on a
      later page load. When the browser refuses the cookie nothing changes, so
      the banner is scheduled exactly as before the click. */
  lemma DecisionIsRecorded(jar: seq<Entry>, d: Decision, expires: string, enabled: bool, bannerPresent: bool)
    requires WellFormedEntries(jar)
    ensures enabled ==> GetCookie(Render(Decide(jar, d, expires, enabled)), ConsentName) == Some(DecisionValue(d))
    ensures enabled ==> !ShouldPrompt(bannerPresent, Render(Decide(jar, d, expires, enabled)))
    ensures !enabled ==> (ShouldPrompt(bannerPresent, Render(Decide(jar, d, expires, enabled)))
                          <==> ShouldPrompt(bannerPresent, Render(jar)))
  {
    if enabled {
      var v := DecisionValue(d);
      assert WellFormedEntry(Entry(ConsentName, v));
      StoreKeepsWellFormed(jar, ConsentName, v);
      StoreThenLookup(jar, ConsentName, v);
      GetCookieOfRendered(Store(jar, ConsentName, v), ConsentName);
    }
  }

  /** With the consent entry absent (or empty) and the banner present, the
      banner is scheduled; with any other stored value it is not. */
  lemma PromptIffNoDecision(jar: seq<Entry>, bannerPresent: bool)
    requires WellFormedEntries(jar)
    ensures ShouldPrompt(bannerPresent, Render(jar))
        <==> bannerPresent && (Lookup(jar, ConsentName) == None || Lookup(jar, ConsentName) == Some(""))
  {
    GetCookieOfRendered(jar, ConsentName);
  }

  /** A first visit (no cookies at all) shows the banner. */
  lemma FirstVisitPrompts()
    ensures ShouldPrompt(true, "")
  {
    GetCookieOfEmpty(ConsentName);
  }
}
