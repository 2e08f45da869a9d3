/** The result list's rows: one address record per feature the service
    returns, and the text each row shows (and hands to the selection handler
    when clicked). */
module Rows {
  import opened Wrappers
  import opened Text

  /** The attributes of one address feature that a row reads. The unit and
      the settlement may be null. */
  datatype AddressAttributes = AddressAttributes(
    numberComplete: string,
    unitNumberComplete: Option<string>,
    fullStreetName: string,
    settlement: Option<string>,
    community: string)

  /** `"<unit> - "` when there is a unit, nothing otherwise. */
  function UnitPrefix(unit: Option<string>): (p: string)
    ensures unit.None? <==> p == ""
    ensures unit.Some? ==> |p| == |unit.value| + 3 && p[..|unit.value|] == unit.value
                           && p[|unit.value|..] == " - "
  {
    match unit
    case None => ""
    case Some(u) => u + " - "
  }

  /** The text of the row for one record:
      `[unit - ]number street [settlement] community`. */
  function FormatRow(a: AddressAttributes): (r: string)
    ensures |r| >= |a.community| && r[|r| - |a.community|..] == a.community
    ensures a.unitNumberComplete.Some? ==>
              var u := a.unitNumberComplete.value;
              |r| >= |u| + 3 && r[..|u| + 3] == u + " - "
    ensures a.unitNumberComplete.None? ==>
              |r| > |a.numberComplete| && r[..|a.numberComplete| + 1] == a.numberComplete + " "
  {
    var lead := UnitPrefix(a.unitNumberComplete) + a.numberComplete + " ";
    var r := lead + a.fullStreetName + " " + a.settlement.GetOr("") + " " + a.community;
    assert r == lead + (a.fullStreetName + " " + a.settlement.GetOr("") + " " + a.community);
    assert r[..|lead|] == lead;
    r
  }

  /** The space-separated slots of a row, in order: the unit and its dash
      when there is a unit, then number, street, settlement (empty when null)
      and community. */
  function RowFields(a: AddressAttributes): (fields: seq<string>)
    ensures |fields| == if a.unitNumberComplete.Some? then 6 else 4
    ensures fields[|fields| - 1] == a.community
  {
    (match a.unitNumberComplete
     case None => []
     case Some(u) => [u, "-"])
    + [a.numberComplete, a.fullStreetName, a.settlement.GetOr(""), a.community]
  }

  /** A row is its slots joined by single spaces. */
  lemma FormatRowIsJoin(a: AddressAttributes)
    ensures FormatRow(a) == Join(RowFields(a), ' ')
  {
    var tail := [a.numberComplete, a.fullStreetName, a.settlement.GetOr(""), a.community];
    JoinFour(a.numberComplete, a.fullStreetName, a.settlement.GetOr(""), a.community);
    match a.unitNumberComplete
    case None =>
      assert RowFields(a) == tail;
      assert FormatRow(a) == a.numberComplete + " " + a.fullStreetName + " "
                             + a.settlement.GetOr("") + " " + a.community;
    case Some(u) =>
      var fields := [u, "-"] + tail;
      assert fields[1..] == ["-"] + tail;
      assert fields[1..][1..] == tail;
      assert Join(fields, ' ') == u + " " + ("-" + " " + Join(tail, ' '));
  }

  lemma JoinFour(n: string, st: string, se: string, c: string)
    ensures Join([n, st, se, c], ' ') == n + " " + st + " " + se + " " + c
  {
    var p := [n, st, se, c];
    assert p[1..] == [st, se, c];
    assert p[1..][1..] == [se, c];
    assert p[1..][1..][1..] == [c];
    assert Join([se, c], ' ') == se + " " + c;
    assert Join([st, se, c], ' ') == st + " " + (se + " " + c);
    assert st + " " + (se + " " + c) == st + " " + se + " " + c;
    assert Join(p, ' ') == n + " " + (st + " " + se + " " + c);
    assert n + " " + (st + " " + se + " " + c) == n + " " + st + " " + se + " " + c;
  }

  /** No slot of the record holds a space of its own. */
  predicate SpaceFree(a: AddressAttributes) {
    && ' ' !in a.numberComplete
    && ' ' !in a.fullStreetName
    && ' ' !in a.community
    && (a.unitNumberComplete.Some? ==> ' ' !in a.unitNumberComplete.value)
    && (a.settlement.Some? ==> ' ' !in a.settlement.value)
  }

  /** When no slot holds a space, splitting a row on spaces gives its slots
      back: the community is always last, and a null settlement shows as an
      empty slot, that is two adjacent spaces. */
  lemma RowSplitsIntoFields(a: AddressAttributes)
    requires SpaceFree(a)
    ensures Split(FormatRow(a), ' ') == RowFields(a)
  {
    FormatRowIsJoin(a);
    var fields := RowFields(a);
    assert forall i :: 0 <= i < |fields| ==> ' ' !in fields[i];
    SplitJoin(fields, ' ');
  }

  /** A null settlement leaves its slot empty: street and community are then
      separated by two spaces, and the row is the one an empty settlement
      gives. */
  lemma NullSettlementDoubleSpace(a: AddressAttributes)
    requires a.settlement.None?
    ensures FormatRow(a) == UnitPrefix(a.unitNumberComplete) + a.numberComplete + " "
                            + a.fullStreetName + "  " + a.community
    ensures FormatRow(a) == FormatRow(a.(settlement := Some("")))
  {
    var lead := UnitPrefix(a.unitNumberComplete) + a.numberComplete + " " + a.fullStreetName;
    assert FormatRow(a) == lead + " " + "" + " " + a.community;
    assert lead + " " + "" + " " + a.community == lead + "  " + a.community;
  }

  /** A null unit drops the `"<unit> - "` prefix entirely: the row is then the
      rest of what it would have been with a unit. */
  lemma NullUnitDropsPrefix(a: AddressAttributes, u: string)
    ensures FormatRow(a.(unitNumberComplete := Some(u)))
            == u + " - " + FormatRow(a.(unitNumberComplete := None))
  {
    var b := a.(unitNumberComplete := None);
    var c := a.(unitNumberComplete := Some(u));
    var rest := a.numberComplete + " " + a.fullStreetName + " "
                + a.settlement.GetOr("") + " " + a.community;
    RowAfterPrefix(b);
    RowAfterPrefix(c);
    assert FormatRow(b) == "" + rest == rest;
    assert FormatRow(c) == (u + " - ") + rest;
  }

  /** A row is its unit prefix followed by everything from the number on. */
  lemma RowAfterPrefix(a: AddressAttributes)
    ensures FormatRow(a) == UnitPrefix(a.unitNumberComplete)
                            + (a.numberComplete + " " + a.fullStreetName + " "
                               + a.settlement.GetOr("") + " " + a.community)
  {
  }

  /** The rows for a response's records, in response order. */
  function RenderRows(records: seq<AddressAttributes>): (rows: seq<string>)
    ensures |rows| == |records|
    ensures forall i :: 0 <= i < |records| ==> rows[i] == FormatRow(records[i])
  {
    if |records| == 0 then []
    else [FormatRow(records[0])] + RenderRows(records[1..])
  }
}
