/**
 * Two decision rules of the script embedded in the page: which tuple and
 * which side a clicked event is shown on (`showModal`, app.js:361-365), and
 * how an event's HTTP status is classified and labelled (`render`,
 * app.js:418-441).
 */
module ClientRules {
  import opened Wrappers
  import opened Records
  import opened Seqs
  import AggregateBuilder

  // ---------------------------------------------------------------------
  // Pair selection

  /** What the modal gets for a clicked event: the side it is shown on and the two tabs' records. */
  datatype Selection = Selection(isRequest: bool, request: Option<Detail>, response: Option<Detail>)

  /** `eventMap[id]`: a null side or an id without details finds nothing. */
  function Lookup(eventMap: map<string, Detail>, id: Option<string>): (r: Option<Detail>)
    ensures r.Some? <==> id.Some? && id.value in eventMap
    ensures r.Some? ==> r.value == eventMap[id.value]
  {
    if id.Some? && id.value in eventMap then Some(eventMap[id.value]) else None
  }

  /**
   * Over an `eventMap` built from the details (app.js:91-94), a clicked id
   * finds a record exactly when some detail carries that id; the record found
   * carries the id and is the last detail with it.
   */
  lemma LookupFindsLastDetail(details: seq<Detail>, eventMap: map<string, Detail>, x: string)
    requires AggregateBuilder.LastWriteIndex(details, EventKey, eventMap)
    ensures Lookup(eventMap, Some(x)).Some? <==> exists i :: 0 <= i < |details| && details[i].eventId == x
    ensures Lookup(eventMap, Some(x)).Some? ==> Lookup(eventMap, Some(x)).value.eventId == x
    ensures forall i :: AggregateBuilder.IsLastWithKey(details, EventKey, i) && details[i].eventId == x ==>
              Lookup(eventMap, Some(x)) == Some(details[i])
  {
    if x in eventMap {
      var i :| 0 <= i < |details| && EventKey(details[i]) == x;
      AggregateBuilder.LastWithKeyExists(details, EventKey, x);
      var l :| AggregateBuilder.IsLastWithKey(details, EventKey, l) && EventKey(details[l]) == x;
      assert eventMap[x] == details[l];
    }
    forall i | AggregateBuilder.IsLastWithKey(details, EventKey, i) && details[i].eventId == x
      ensures Lookup(eventMap, Some(x)) == Some(details[i])
    {
      assert EventKey(details[i]) == x;
    }
  }

  predicate Contains(t: Pair, eventId: string)
  {
    t.req == Some(eventId) || t.res == Some(eventId)
  }

  ghost predicate IsFirstContaining(tuples: seq<Pair>, eventId: string, i: int)
  {
    0 <= i < |tuples| && Contains(tuples[i], eventId) &&
    forall j :: 0 <= j < i ==> !Contains(tuples[j], eventId)
  }

  /**
   * app.js:361-365. The chosen tuple is the first one holding the clicked id
   * on either side; the event is on the request side exactly when that
   * tuple's first component is the clicked id. The clicked event itself is
   * always looked up for its own side, also when no tuple holds it (the
   * source falls back to `[]`, whose components are undefined).
   */
  function SelectPair(tuples: seq<Pair>, eventMap: map<string, Detail>, eventId: string): (sel: Selection)
    ensures sel.isRequest ==> sel.request == Lookup(eventMap, Some(eventId))
    ensures !sel.isRequest ==> sel.response == Lookup(eventMap, Some(eventId))
    ensures forall i :: IsFirstContaining(tuples, eventId, i) ==>
              && (sel.isRequest <==> tuples[i].req == Some(eventId))
              && (sel.isRequest ==> sel.response == Lookup(eventMap, tuples[i].res))
              && (!sel.isRequest ==> sel.request == Lookup(eventMap, tuples[i].req))
    ensures (forall i :: 0 <= i < |tuples| ==> !Contains(tuples[i], eventId)) ==>
              !sel.isRequest && sel.request == None
  {
    var found := FirstIndex(tuples, (t: Pair) => Contains(t, eventId));
    var first := if found.Some? then tuples[found.value].req else None;
    var second := if found.Some? then tuples[found.value].res else None;
    var isRequest := first == Some(eventId);
    var otherId := if isRequest then second else first;
    Selection(isRequest,
              if isRequest then Lookup(eventMap, Some(eventId)) else Lookup(eventMap, otherId),
              if isRequest then Lookup(eventMap, otherId) else Lookup(eventMap, Some(eventId)))
  }

  /**
   * In the chain a <- c <- b, clicking `c` finds the tuple `[a, c]` first, so
   * `c` is shown as the response of `a` and its own response `b` has no tab.
   */
  lemma ChainClickShowsResponse(eventMap: map<string, Detail>)
    ensures var sel := SelectPair([Pair(Some("a"), Some("c")), Pair(Some("c"), Some("b"))], eventMap, "c");
            !sel.isRequest && sel.request == Lookup(eventMap, Some("a"))
  {
    var tuples := [Pair(Some("a"), Some("c")), Pair(Some("c"), Some("b"))];
    assert IsFirstContaining(tuples, "c", 0);
  }

  // ---------------------------------------------------------------------
  // Status classification

  datatype StatusBadge = StatusBadge(className: string, text: string)

  function DigitChar(d: nat): char
    requires d < 10
  {
    (d + '0' as int) as char
  }

  function DigitValue(c: char): nat
  {
    if '0' <= c <= '9' then (c as int - '0' as int) else 0
  }

  /** Decimal digits of `n`, as `String(n)` writes them. */
  function NatToString(n: nat): string
  {
    if n < 10 then [DigitChar(n)] else NatToString(n / 10) + [DigitChar(n % 10)]
  }

  /** `String(n)` for an integer: a minus sign before the digits of a negative number. */
  function IntToString(n: int): string
  {
    if n < 0 then "-" + NatToString(-n) else NatToString(n)
  }

  function ParseNat(s: string): nat
  {
    if s == [] then 0 else ParseNat(s[..|s| - 1]) * 10 + DigitValue(s[|s| - 1])
  }

  function ParseInt(s: string): int
  {
    if |s| > 0 && s[0] == '-' then -(ParseNat(s[1..]) as int) else ParseNat(s)
  }

  lemma {:induction false} NatToStringRoundTrip(n: nat)
    ensures |NatToString(n)| > 0 && NatToString(n)[0] != '-'
    ensures ParseNat(NatToString(n)) == n
  {
    if n >= 10 {
      var high, low := n / 10, n % 10;
      NatToStringRoundTrip(high);
      var s := NatToString(high) + [DigitChar(low)];
      assert NatToString(n) == s;
      assert s[..|s| - 1] == NatToString(high) && s[|s| - 1] == DigitChar(low);
      assert ParseNat(s) == high * 10 + low;
      assert high * 10 + low == n;
    }
  }

  /** The number shown in a status label reads back as the status. */
  lemma IntToStringRoundTrip(n: int)
    ensures ParseInt(IntToString(n)) == n
  {
    if n < 0 {
      var digits := NatToString(-n);
      NatToStringRoundTrip(-n);
      assert IntToString(n) == "-" + digits;
      assert ("-" + digits)[0] == '-' && ("-" + digits)[1..] == digits;
    } else {
      NatToStringRoundTrip(n);
    }
  }

  predicate StartsWith(s: string, prefix: string)
  {
    |prefix| <= |s| && forall i :: 0 <= i < |prefix| ==> s[i] == prefix[i]
  }

  predicate EndsWith(s: string, suffix: string)
  {
    |suffix| <= |s| && forall i :: 0 <= i < |suffix| ==> s[|s| - |suffix| + i] == suffix[i]
  }

  /** A status label: its category word and the status in parentheses. */
  function Label(word: string, s: int): (text: string)
    ensures StartsWith(text, word)
    ensures EndsWith(text, IntToString(s) + ")")
    ensures |text| == |word| + |IntToString(s)| + 1
  {
    var number := IntToString(s) + ")";
    assert word + IntToString(s) + ")" == word + number;
    word + number
  }

  /** The three class names differ, and a label starts with no other category word than its own. */
  lemma CategoriesExclusive(s: int)
    ensures "status warning" != "status success" && "status warning" != "status error"
    ensures "status success" != "status error"
    ensures !StartsWith(Label("Exitoso (", s), "Warning (") && !StartsWith(Label("Exitoso (", s), "Error (")
    ensures !StartsWith(Label("Warning (", s), "Exitoso (") && !StartsWith(Label("Warning (", s), "Error (")
    ensures !StartsWith(Label("Error (", s), "Exitoso (") && !StartsWith(Label("Error (", s), "Warning (")
  {
    assert "status warning"[7] == 'w' && "status success"[7] == 's' && "status error"[7] == 'e';
    var e, w, r := Label("Exitoso (", s), Label("Warning (", s), Label("Error (", s);
    assert e[0] == 'E' && e[1] == 'x';
    assert w[0] == 'W';
    assert r[0] == 'E' && r[1] == 'r';
  }

  /**
   * app.js:418-441. No badge for an absent or zero status; otherwise 1xx is
   * a warning, 2xx a success and everything else an error, and the class and
   * the label (computed by two chains that test the ranges in different
   * orders) always name the same category.
   */
  function RenderStatus(status: Option<int>): (badge: StatusBadge)
    ensures badge.text == "" <==> status.None? || status.value == 0
    ensures badge.className == "status" <==> badge.text == ""
    ensures badge.className == "status warning" <==> StartsWith(badge.text, "Warning (")
    ensures badge.className == "status success" <==> StartsWith(badge.text, "Exitoso (")
    ensures badge.className == "status error" <==> StartsWith(badge.text, "Error (")
    ensures badge.className == "status success" <==> status.Some? && 200 <= status.value < 300
    ensures badge.className == "status warning" <==> status.Some? && 100 <= status.value < 200
    ensures badge.className == "status error" <==>
              status.Some? && status.value != 0 && !(100 <= status.value < 300)
    ensures status.Some? && status.value != 0 ==> EndsWith(badge.text, IntToString(status.value) + ")")
    // the category word ("Exitoso (" and "Warning (" have 9 characters, "Error (" 7),
    // the number and `)`, with nothing in between
    ensures status.Some? && status.value != 0 ==>
              |badge.text| == (if 100 <= status.value < 300 then 9 else 7) + |IntToString(status.value)| + 1
  {
    if status.None? || status.value == 0 then StatusBadge("status", "")
    else
      var s := status.value;
      var statusClass :=
        if 100 <= s < 200 then "status warning"
        else if 200 <= s < 300 then "status success"
        else "status error";
      var statusText :=
        if 200 <= s < 300 then Label("Exitoso (", s)
        else if 100 <= s < 200 then Label("Warning (", s)
        else Label("Error (", s);
      CategoriesExclusive(s);
      StatusBadge(statusClass, statusText)
  }
}
