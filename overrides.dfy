/** The form handler's parser for the `overrides` field, text such as
    "HKG:900, sin:450": split on commas, each piece split on the colon,
    the port code stripped and upper-cased, the cost read as a number.
    One `try` guards the whole loop, so the first piece that does not
    parse ends it and the entries read before it stay. The number reader
    `float(v)` is the parameter `parseNumber`. */
module OverrideParser {
  import opened Wrappers
  import opened Text
  import opened Network

  /** The port code a key names: `k.strip().upper()`. */
  function KeyCode(k: string): Port {
    Upper(Strip(k))
  }

  /** The entry one piece gives, or None when `k, v = part.split(':')`
      or `float(v)` raises. */
  function Entry(part: string, parseNumber: string -> Option<real>): Option<(Port, real)> {
    var kv := Split(part, ':');
    if |kv| != 2 then None
    else match parseNumber(kv[1])
      case None => None
      case Some(x) => Some((KeyCode(kv[0]), x))
  }

  /** The entry of every piece, in order. */
  function Entries(parts: seq<string>, parseNumber: string -> Option<real>): (es: seq<Option<(Port, real)>>)
    ensures |es| == |parts|
  {
    seq(|parts|, i requires 0 <= i < |parts| => Entry(parts[i], parseNumber))
  }

  /** The number of entries before the first piece that does not parse. */
  function GoodCount<K, V>(es: seq<Option<(K, V)>>): (n: nat)
    ensures n <= |es|
    ensures forall i :: 0 <= i < n ==> es[i].Some?
    ensures n < |es| ==> es[n].None?
  {
    if es == [] || es[0].None? then 0
    else
      var rest := es[1..];
      var n := GoodCount(rest);
      assert forall i :: 1 <= i <= |rest| ==> es[i] == rest[i - 1];
      1 + n
  }

  /** Stores the entries `es` into `m` in order, a later entry for a key
      replacing an earlier one. */
  function Assign<K, V>(m: map<K, V>, es: seq<Option<(K, V)>>): map<K, V>
    requires forall i :: 0 <= i < |es| ==> es[i].Some?
  {
    if es == [] then m
    else
      var e := es[|es| - 1].value;
      Assign(m, es[..|es| - 1])[e.0 := e.1]
  }

  /** The overrides the pieces give: the entries of the pieces before the
      first that does not parse. */
  function FromParts(parts: seq<string>, parseNumber: string -> Option<real>): map<Port, real> {
    var es := Entries(parts, parseNumber);
    Assign(map[], es[..GoodCount(es)])
  }

  /** The overrides the form field gives; nothing at all when the field is
      empty or only whitespace. */
  function OverridesFrom(raw: string, parseNumber: string -> Option<real>): map<Port, real> {
    var s := Strip(raw);
    if s == [] then map[] else FromParts(Split(s, ','), parseNumber)
  }

  /** The parsing block of the `/optimize` handler: strip the field and,
      unless that leaves nothing, read its comma-separated pieces. */
  method ParseOverrides(raw: string, parseNumber: string -> Option<real>) returns (overrides: map<Port, real>)
    ensures overrides == OverridesFrom(raw, parseNumber)
  {
    var s := Strip(raw);
    overrides := map[];
    if s != [] {
      overrides := ParseParts(Split(s, ','), parseNumber);
    }
  }

  /** The `try` block: read the pieces in order and stop at the first one
      that does not parse, keeping what was read before it. */
  method ParseParts(parts: seq<string>, parseNumber: string -> Option<real>) returns (overrides: map<Port, real>)
    ensures overrides == FromParts(parts, parseNumber)
  {
    ghost var es := Entries(parts, parseNumber);
    overrides := map[];
    var i := 0;
    while i < |parts|
      invariant i <= GoodCount(es)
      invariant overrides == Assign(map[], es[..i])
    {
      var entry := Entry(parts[i], parseNumber);
      assert es[i] == entry;
      if entry.None? {
        break;
      }
      assert i < GoodCount(es);
      overrides := overrides[entry.value.0 := entry.value.1];
      assert overrides == Assign(map[], es[..i + 1]) by {
        assert es[..i + 1][..i] == es[..i];
      }
      i := i + 1;
    }
    assert i == GoodCount(es);
  }

  // ---------------------------------------------------------------------
  // What the parser promises.

  /** An empty or blank field gives no overrides. */
  lemma BlankGivesNothing(raw: string, parseNumber: string -> Option<real>)
    requires AllSpace(raw)
    ensures OverridesFrom(raw, parseNumber) == map[]
  {
    StripEmptyIffAllSpace(raw);
  }

  /** A key is stored exactly when it was there already or an entry
      names it. */
  lemma {:induction false} AssignKeys<K, V>(m: map<K, V>, es: seq<Option<(K, V)>>, k: K)
    requires forall i :: 0 <= i < |es| ==> es[i].Some?
    ensures k in Assign(m, es) <==> k in m || exists i :: 0 <= i < |es| && es[i].value.0 == k
  {
    if es != [] {
      var init := es[..|es| - 1];
      assert forall i :: 0 <= i < |init| ==> init[i] == es[i];
      AssignKeys(m, init, k);
    }
  }

  /** The value stored for a key is the one of the last entry naming it. */
  lemma {:induction false} AssignLastWins<K, V>(m: map<K, V>, es: seq<Option<(K, V)>>, j: nat)
    requires forall i :: 0 <= i < |es| ==> es[i].Some?
    requires j < |es|
    requires forall i :: j < i < |es| ==> es[i].value.0 != es[j].value.0
    ensures es[j].value.0 in Assign(m, es)
    ensures Assign(m, es)[es[j].value.0] == es[j].value.1
  {
    var init := es[..|es| - 1];
    assert forall i :: 0 <= i < |init| ==> init[i] == es[i];
    if j < |init| {
      AssignLastWins(m, init, j);
    }
  }

  /** The port code of an entry has no ASCII lower-case letter, so "hkg" and
      " HKG " name the same port. */
  lemma EntryKeyIsUpperCase(part: string, parseNumber: string -> Option<real>)
    requires Entry(part, parseNumber).Some?
    ensures var key := Entry(part, parseNumber).value.0;
            forall i :: 0 <= i < |key| ==> !('a' <= key[i] <= 'z')
  {
  }

  /** A key with no whitespace at either end names the port its
      upper-cased text spells (so, by `UpperChar`, a key written with the
      long s or the dotless i can name SIN or IDX, as in Python). */
  lemma KeyCodeOfBareKey(k: string)
    requires k == [] || (!IsSpace(k[0]) && !IsSpace(k[|k| - 1]))
    ensures KeyCode(k) == Upper(k)
  {
    StripOfStripped(k);
  }

  /** A piece `k:v` with a single colon gives the port code of `k`
      and the number `v` reads as, when it reads as one. */
  lemma EntryOfPair(k: string, v: string, parseNumber: string -> Option<real>)
    requires ':' !in k && ':' !in v
    ensures Entry(k + [':'] + v, parseNumber)
            == if parseNumber(v).Some? then Some((KeyCode(k), parseNumber(v).value)) else None
  {
    SplitAtSeparator(k, v, ':');
    SplitWithoutSeparator(v, ':');
  }

  /** A piece without exactly one colon does not unpack into a key and a
      value, so it does not parse. */
  lemma EntryNeedsOneColon(part: string, parseNumber: string -> Option<real>)
    requires multiset(part)[':'] != 1
    ensures Entry(part, parseNumber).None?
  {
    SplitCount(part, ':');
  }

  /** A port has an override exactly when a piece before the first one
      that does not parse names it. */
  lemma FromPartsKeys(parts: seq<string>, parseNumber: string -> Option<real>, k: Port)
    ensures var es := Entries(parts, parseNumber);
            k in FromParts(parts, parseNumber) <==> exists i :: 0 <= i < GoodCount(es) && es[i].value.0 == k
  {
    var es := Entries(parts, parseNumber);
    var good := es[..GoodCount(es)];
    assert forall i :: 0 <= i < |good| ==> good[i] == es[i];
    AssignKeys(map[], good, k);
  }

  /** The override of a port is the cost of the last piece naming it
      before the first one that does not parse. */
  lemma FromPartsLastWins(parts: seq<string>, parseNumber: string -> Option<real>, j: nat)
    ensures var es := Entries(parts, parseNumber);
            var n := GoodCount(es);
            j < n && (forall i :: j < i < n ==> es[i].value.0 != es[j].value.0) ==>
              es[j].value.0 in FromParts(parts, parseNumber)
              && FromParts(parts, parseNumber)[es[j].value.0] == es[j].value.1
  {
    var es := Entries(parts, parseNumber);
    var n := GoodCount(es);
    if j < n && (forall i :: j < i < n ==> es[i].value.0 != es[j].value.0) {
      var good := es[..n];
      assert forall i :: 0 <= i < |good| ==> good[i] == es[i];
      AssignLastWins(map[], good, j);
    }
  }

  /** Entries that follow one that is None do not count. */
  lemma {:induction false} GoodCountAppend<K, V>(es: seq<Option<(K, V)>>, more: seq<Option<(K, V)>>)
    requires more != [] && more[0].None?
    ensures GoodCount(es + more) == GoodCount(es)
  {
    if es != [] {
      assert (es + more)[0] == es[0];
      assert (es + more)[1..] == es[1..] + more;
      GoodCountAppend(es[1..], more);
    } else {
      assert es + more == more;
    }
  }

  lemma EntriesSnoc(a: seq<string>, x: string, parseNumber: string -> Option<real>)
    ensures Entries(a + [x], parseNumber) == Entries(a, parseNumber) + [Entry(x, parseNumber)]
  {
    assert (a + [x])[..|a|] == a;
  }

  lemma {:induction false} EntriesAppend(a: seq<string>, b: seq<string>, parseNumber: string -> Option<real>)
    ensures Entries(a + b, parseNumber) == Entries(a, parseNumber) + Entries(b, parseNumber)
  {
    if b == [] {
      assert a + b == a;
    } else {
      var init, x := b[..|b| - 1], b[|b| - 1];
      EntriesAppend(a, init, parseNumber);
      assert a + b == (a + init) + [x] by {
        assert b == init + [x];
      }
      EntriesSnoc(a + init, x, parseNumber);
      EntriesSnoc(init, x, parseNumber);
      assert b == init + [x];
    }
  }

  /** Nothing after a piece that does not parse has any effect. */
  lemma StopsAtFirstBad(before: seq<string>, bad: string, after: seq<string>, parseNumber: string -> Option<real>)
    requires Entry(bad, parseNumber).None?
    ensures FromParts(before + [bad] + after, parseNumber) == FromParts(before, parseNumber)
  {
    var es := Entries(before, parseNumber);
    var all := Entries(before + [bad] + after, parseNumber);
    var more := Entries([bad] + after, parseNumber);
    assert before + [bad] + after == before + ([bad] + after);
    EntriesAppend(before, [bad] + after, parseNumber);
    assert all == es + more;
    GoodCountAppend(es, more);
    var n := GoodCount(es);
    assert all[..n] == es[..n];
  }

  /** An empty piece has no colon, so it does not parse. */
  lemma EmptyPieceFails(parseNumber: string -> Option<real>)
    ensures Entry([], parseNumber).None?
  {
    assert Split([], ':') == [[]];
  }

  /** A trailing comma adds an empty piece, which does not parse, so the
      field reads as without it. */
  lemma TrailingCommaKeepsEntries(raw: string, parseNumber: string -> Option<real>)
    requires raw != [] && !IsSpace(raw[|raw| - 1])
    ensures OverridesFrom(raw + [','], parseNumber) == OverridesFrom(raw, parseNumber)
  {
    StripAppendNonSpace(raw, ',');
    var s := Strip(raw);
    SplitAppendSeparator(s, ',');
    EmptyPieceFails(parseNumber);
    var parts := Split(s, ',');
    StopsAtFirstBad(parts, [], [], parseNumber);
    assert (parts + [[]]) + [] == parts + [[]];
  }
}
