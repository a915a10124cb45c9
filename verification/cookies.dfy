/** `getCookie(name)` of quad/templates/forum/like.js, which
    quad/templates/forum/likeComment.js repeats verbatim.

    The cookie string (`document.cookie`) is split on ';', each entry is trimmed,
    and the first entry that starts with exactly `name + '='` supplies the value:
    everything after that prefix, passed through `decodeURIComponent`. With no
    such entry, or an empty cookie string, the result is `null` (here `None`).
    `decodeURIComponent` is a parameter: the model does not interpret it. */
module Cookies {
  import opened Results
  import opened Text

  /** The entry's first `|name| + 1` characters, clamped to the entry as JavaScript's
      `substring` clamps them, spell `name=`. */
  predicate EntryMatches(entry: string, name: string)
  {
    JsSubstring(entry, 0, |name| + 1) == name + "="
  }

  /** Everything in the entry after its first `|name| + 1` characters, decoded. */
  function EntryValue(entry: string, name: string, decode: string -> string): string
  {
    decode(JsSubstring(entry, |name| + 1, |entry|))
  }

  /** Each entry trimmed, as the loop does before testing it. */
  function TrimAll(raw: seq<string>): (r: seq<string>)
    ensures |r| == |raw|
    ensures forall i :: 0 <= i < |raw| ==> r[i] == Trim(raw[i])
  {
    if raw == [] then [] else [Trim(raw[0])] + TrimAll(raw[1..])
  }

  /** The cookie string cut at every ';', each piece trimmed. */
  function Entries(cookie: string): seq<string>
  {
    TrimAll(Split(cookie, ';'))
  }

  /** Entry `i` is the first one that matches. */
  predicate FirstMatchAt(entries: seq<string>, name: string, i: int)
  {
    && 0 <= i < |entries|
    && EntryMatches(entries[i], name)
    && forall j :: 0 <= j < i ==> !EntryMatches(entries[j], name)
  }

  /** The body of the `for` loop from index `i` on, with its `break`. */
  function Scan(entries: seq<string>, name: string, decode: string -> string, i: nat): (r: Option<string>)
    requires i <= |entries|
    ensures r.None? <==> forall j :: i <= j < |entries| ==> !EntryMatches(entries[j], name)
    ensures r.Some? ==> exists k :: i <= k < |entries| && EntryMatches(entries[k], name)
                                    && (forall j :: i <= j < k ==> !EntryMatches(entries[j], name))
                                    && r.value == EntryValue(entries[k], name, decode)
    decreases |entries| - i
  {
    if i == |entries| then None
    else if EntryMatches(entries[i], name) then Some(EntryValue(entries[i], name, decode))
    else Scan(entries, name, decode, i + 1)
  }

  /** `getCookie(name)` against the cookie string `cookie`. */
  function GetCookie(cookie: string, name: string, decode: string -> string): (r: Option<string>)
    ensures cookie == "" ==> r == None
    ensures r.None? <==> forall j :: 0 <= j < |Entries(cookie)| ==> !EntryMatches(Entries(cookie)[j], name)
    ensures r.Some? ==> exists k :: FirstMatchAt(Entries(cookie), name, k)
                                    && r.value == EntryValue(Entries(cookie)[k], name, decode)
  {
    if cookie == "" then None else Scan(Entries(cookie), name, decode, 0)
  }

  // ------------------------------------------------------------ properties

  /** The JavaScript comparison is a plain prefix test on the trimmed entry. */
  lemma EntryMatchesIffPrefix(entry: string, name: string)
    ensures EntryMatches(entry, name) <==> IsPrefix(name + "=", entry)
  {
  }

  /** The value is everything after the first `name=`, further '=' included. */
  lemma EntryValueIsRemainder(name: string, value: string, decode: string -> string)
    ensures EntryMatches(name + "=" + value, name)
    ensures EntryValue(name + "=" + value, name, decode) == decode(value)
  {
    var e := name + "=" + value;
    EntryMatchesIffPrefix(e, name);
    assert e[..|name| + 1] == name + "=";
    assert JsSubstring(e, |name| + 1, |e|) == value;
  }

  /** For cookie names, which never contain '=', an entry `other=value` matches
      `name` only when the names are equal: `csrf` does not match `csrftoken=…`,
      and `csrftoken` does not match `csrf=…`. */
  lemma MatchOnlyOnExactName(name: string, other: string, value: string)
    requires '=' !in name && '=' !in other
    ensures EntryMatches(other + "=" + value, name) <==> name == other
  {
    var e := other + "=" + value;
    EntryMatchesIffPrefix(e, name);
    if name == other {
      assert e[..|name| + 1] == name + "=";
    } else if |name| < |other| {
      // the prefix would put '=' inside `other`
      assert (name + "=")[|name|] == '=';
      assert e[|name|] == other[|name|];
    } else if |name| > |other| {
      // the prefix would put '=' inside `name`
      assert e[|other|] == '=';
      assert (name + "=")[|other|] == name[|other|];
    } else {
      assert e[..|name|] == other;
    }
  }

  /** The empty-string guard is redundant: splitting "" gives one empty entry, which never matches. */
  lemma EmptyCookieNeverMatches(name: string, decode: string -> string)
    ensures Scan(Entries(""), name, decode, 0) == None
  {
  }

  /** Splitting off the first entry of a cookie string. */
  lemma EntriesOfConcat(first: string, rest: string)
    requires ';' !in first
    ensures Entries(first + ";" + rest) == [Trim(first)] + Entries(rest)
  {
    SplitAtFirstSeparator(first, rest, ';');
    assert first + [';'] + rest == first + ";" + rest;
    assert ([first] + Split(rest, ';'))[1..] == Split(rest, ';');
  }

  /** An entry that matches decides the result, whatever follows it: the first match wins. */
  lemma FirstEntryWins(first: string, rest: string, name: string, decode: string -> string)
    requires ';' !in first
    requires EntryMatches(Trim(first), name)
    ensures GetCookie(first + ";" + rest, name, decode) == Some(EntryValue(Trim(first), name, decode))
  {
    EntriesOfConcat(first, rest);
  }

  /** A non-matching entry is skipped: the answer comes from the rest of the cookie string. */
  lemma NonMatchingEntrySkipped(first: string, rest: string, name: string, decode: string -> string)
    requires ';' !in first
    requires !EntryMatches(Trim(first), name)
    ensures GetCookie(first + ";" + rest, name, decode) == GetCookie(rest, name, decode)
  {
    var cookie := first + ";" + rest;
    EntriesOfConcat(first, rest);
    var tail := Entries(rest);
    assert GetCookie(cookie, name, decode) == Scan([Trim(first)] + tail, name, decode, 0);
    assert Scan([Trim(first)] + tail, name, decode, 0) == Scan([Trim(first)] + tail, name, decode, 1);
    ScanShift(Trim(first), tail, name, decode, 0);
    if rest == "" {
      EmptyCookieNeverMatches(name, decode);
    }
  }

  lemma {:induction false} ScanShift(head: string, tail: seq<string>, name: string, decode: string -> string, i: nat)
    requires i <= |tail|
    requires !EntryMatches(head, name)
    ensures Scan([head] + tail, name, decode, i + 1) == Scan(tail, name, decode, i)
    decreases |tail| - i
  {
    if i < |tail| {
      assert ([head] + tail)[i + 1] == tail[i];
      ScanShift(head, tail, name, decode, i + 1);
    }
    if i == 0 {
      assert ([head] + tail)[0] == head;
    }
  }

  /** A single `name=value` cookie with no padding yields the decoded value. */
  lemma SingleCookie(name: string, value: string, decode: string -> string)
    requires ';' !in name + "=" + value
    requires Unpadded(name + "=" + value)
    ensures GetCookie(name + "=" + value, name, decode) == Some(decode(value))
  {
    var e := name + "=" + value;
    SplitWithoutSeparator(e, ';');
    TrimUnpadded(e);
    assert Entries(e) == [e];
    EntryValueIsRemainder(name, value, decode);
  }
}
