/** The Mortgage Coach scenario label (app.py scenario_property_name and
    build_scenario_name). The price label that format_k renders from a float
    is taken as an input. */
module Scenario {
  import opened Wrappers
  import opened Text
  import opened Search

  /** scenario_property_name: "" for an empty address, otherwise the text
      before the first comma, trimmed, with whitespace runs made one space. */
  function PropertyName(address: string): (r: string)
    ensures address == [] ==> r == []
    ensures ',' !in r
    ensures NormalSpaced(r)
    ensures NonSpace(r) == NonSpace(BeforeFirst(address, ','))
  {
    if address == [] then []
    else
      var first := BeforeFirst(address, ',');
      PropertyNameShape(first);
      Squash(Strip(first))
  }

  lemma PropertyNameShape(first: string)
    requires ',' !in first
    ensures ',' !in Squash(Strip(first))
    ensures NormalSpaced(Squash(Strip(first)))
    ensures NonSpace(Squash(Strip(first))) == NonSpace(first)
  {
    var m := Strip(first);
    StripChars(first);
    SquashShape(m);
    var q := Squash(m);
    forall i | 0 <= i < |q| ensures q[i] != ',' {
      assert q[i] == ' ' || q[i] in m;
    }
    SquashTrimmed(m);
    NonSpaceSquash(m);
    NonSpaceStripLeft(first);
    NonSpaceStripRight(StripLeft(first));
  }

  /** The street part is cleaned exactly as _clean_text cleans a text. */
  lemma PropertyNameIsCleanText(address: string)
    requires address != []
    ensures PropertyName(address) == CleanText(Some(BeforeFirst(address, ',')))
  {
    SquashStripCommute(BeforeFirst(address, ','));
  }

  /** Squashing text that is already trimmed keeps it trimmed. */
  lemma SquashTrimmed(m: string)
    requires m == [] || (!IsSpace(m[0]) && !IsSpace(m[|m| - 1]))
    ensures NormalSpaced(Squash(m))
  {
    SquashShape(m);
    var q := Squash(m);
    if q != [] {
      assert q[0] != ' ' && q[|q| - 1] != ' ';
      assert q[0] == ' ' || !IsSpace(q[0]);
      assert q[|q| - 1] == ' ' || !IsSpace(q[|q| - 1]);
    }
  }

  /** Trimming only removes characters. */
  lemma StripChars(s: string)
    ensures forall c :: c in Strip(s) ==> c in s
  {
    var l := StripLeft(s);
    var r := StripRight(l);
    StripInfix(s, l, r);
    var k := |s| - |l|;
    forall i | 0 <= i < |r| ensures r[i] in s {
      assert r[i] == s[k + i];
    }
  }

  /** build_scenario_name: the price label alone when the property name is
      empty, otherwise the name, " - " and the label. */
  function ScenarioName(address: string, priceLabel: string): (r: string)
    ensures |priceLabel| <= |r| && r[|r| - |priceLabel|..] == priceLabel
    ensures r == priceLabel <==> PropertyName(address) == []
    ensures PropertyName(address) != [] ==> StartsWith(r, PropertyName(address) + " - ")
    ensures PropertyName(address) != [] ==> |r| == |PropertyName(address)| + 3 + |priceLabel|
  {
    var prop := PropertyName(address);
    LabelShape(prop, priceLabel);
    if prop == [] then priceLabel else prop + " - " + priceLabel
  }

  lemma LabelShape(prop: string, tag: string)
    ensures var r := (if prop == [] then tag else prop + " - " + tag);
      |tag| <= |r| && r[|r| - |tag|..] == tag &&
      (r == tag <==> prop == []) &&
      (prop != [] ==> StartsWith(r, prop + " - ") && |r| == |prop| + 3 + |tag|)
  {
    if prop != [] {
      var r := prop + " - " + tag;
      assert r == (prop + " - ") + tag;
      assert |r| > |tag|;
    }
  }

  /** The street part of "4524 Glory Way SW, Wyoming, MI 49418". */
  lemma PropertyNameExample(street: string, rest: string)
    requires street == "4524 Glory Way SW" && rest == " Wyoming, MI 49418"
    ensures PropertyName(street + "," + rest) == street
  {
    StreetFacts(street);
    BeforeFirstAt(street, rest, ',');
    StripIdentity(street);
    SquashIdentity(street);
  }

  lemma StreetFacts(street: string)
    requires street == "4524 Glory Way SW"
    ensures ',' !in street && SingleSpaced(street)
    ensures !IsSpace(street[0]) && !IsSpace(street[|street| - 1])
  {
  }
}
