/** Router display names: node i is shown as "Router" + str(i), and
    `router_mapping` turns a chosen name back into its node id. */
module Routers {
  import opened Sequences

  predicate IsDigit(c: char) {
    '0' <= c <= '9'
  }

  function DigitChar(d: nat): (c: char)
    requires d < 10
    ensures IsDigit(c)
  {
    ('0' as int + d) as char
  }

  /** The decimal text of a node id, as Python prints an int: digits, most
      significant first, no leading zero. */
  function Decimal(i: nat): (s: string)
    ensures |s| >= 1
    ensures forall k :: 0 <= k < |s| ==> IsDigit(s[k])
    ensures |s| > 1 ==> s[0] != '0'
  {
    if i < 10 then [DigitChar(i)] else Decimal(i / 10) + [DigitChar(i % 10)]
  }

  function DigitValue(c: char): (d: nat)
    requires IsDigit(c)
    ensures d < 10 && DigitChar(d) == c
  {
    c as int - '0' as int
  }

  /** The value of a string of decimal digits. */
  function DecimalValue(s: string): nat
    requires forall k :: 0 <= k < |s| ==> IsDigit(s[k])
  {
    if s == [] then 0
    else DecimalValue(s[..|s| - 1]) * 10 + DigitValue(s[|s| - 1])
  }

  /** Reading back the decimal text of i gives i. */
  lemma {:induction false} DecimalRoundTrip(i: nat)
    ensures DecimalValue(Decimal(i)) == i
  {
    if i >= 10 {
      DecimalRoundTrip(i / 10);
      var s := Decimal(i);
      assert s[..|s| - 1] == Decimal(i / 10);
    }
  }

  /** The display name of node i: the word Router followed by its id. */
  function Label(i: nat): (s: string)
    ensures |s| > 6 && s[..6] == "Router"
  {
    "Router" + Decimal(i)
  }

  /** Distinct routers have distinct names, so comparing names compares ids. */
  lemma LabelInjective(i: nat, j: nat)
    ensures Label(i) == Label(j) <==> i == j
  {
    if Label(i) == Label(j) {
      assert Decimal(i) == Label(i)[6..];
      assert Decimal(j) == Label(j)[6..];
      DecimalRoundTrip(i);
      DecimalRoundTrip(j);
    }
  }

  /** The display names of the routers, in the routers' order. */
  function RouterNames(routers: seq<nat>): (names: seq<string>)
    ensures |names| == |routers|
    ensures forall k :: 0 <= k < |names| ==> names[k] == Label(routers[k])
  {
    seq(|routers|, k requires 0 <= k < |routers| => Label(routers[k]))
  }

  /** Two positions carry the same name exactly when they hold the same
      router, so a list of distinct routers gives distinct names. */
  lemma RouterNamesDistinct(routers: seq<nat>, j: nat, k: nat)
    requires j < |routers| && k < |routers|
    ensures RouterNames(routers)[j] == RouterNames(routers)[k] <==> routers[j] == routers[k]
  {
    LabelInjective(routers[j], routers[k]);
  }

  /** A Python dict built from a list of pairs: each key maps to the value
      of its last pair. */
  function DictOf(pairs: seq<(string, nat)>): (d: map<string, nat>)
    ensures forall k :: k in d <==> exists j :: 0 <= j < |pairs| && pairs[j].0 == k
  {
    if pairs == [] then map[]
    else DictOf(pairs[..|pairs| - 1])[pairs[|pairs| - 1].0 := pairs[|pairs| - 1].1]
  }

  /** A key whose pairs all carry the same value maps to that value. */
  lemma {:induction false} DictOfLookup(pairs: seq<(string, nat)>, key: string, v: nat)
    requires exists j :: 0 <= j < |pairs| && pairs[j].0 == key
    requires forall j :: 0 <= j < |pairs| && pairs[j].0 == key ==> pairs[j].1 == v
    ensures key in DictOf(pairs) && DictOf(pairs)[key] == v
  {
    var last := pairs[|pairs| - 1];
    if last.0 != key {
      var front := pairs[..|pairs| - 1];
      var j :| 0 <= j < |pairs| && pairs[j].0 == key;
      assert front[j].0 == key;
      forall i | 0 <= i < |front| && front[i].0 == key
        ensures front[i].1 == v
      {
        assert front[i] == pairs[i];
      }
      DictOfLookup(front, key, v);
    }
  }

  /** The name-to-id dictionary built by pairing each name with its router. */
  function RouterMapping(routers: seq<nat>): (m: map<string, nat>)
    ensures forall name :: name in m <==> exists k :: 0 <= k < |routers| && Label(routers[k]) == name
  {
    DictOf(Zip(RouterNames(routers), routers))
  }

  /** The mapping sends every router's name back to that router. */
  lemma MappingRoundTrip(routers: seq<nat>, i: nat)
    requires i in routers
    ensures Label(i) in RouterMapping(routers) && RouterMapping(routers)[Label(i)] == i
  {
    var pairs := Zip(RouterNames(routers), routers);
    var j :| 0 <= j < |routers| && routers[j] == i;
    assert pairs[j].0 == Label(i);
    forall m | 0 <= m < |pairs| && pairs[m].0 == Label(i)
      ensures pairs[m].1 == i
    {
      LabelInjective(routers[m], i);
    }
    DictOfLookup(pairs, Label(i), i);
  }

  /** The mapping has exactly the router names as keys. */
  lemma MappingKeys(routers: seq<nat>, name: string)
    ensures name in RouterMapping(routers) <==> name in RouterNames(routers)
  {
    var pairs := Zip(RouterNames(routers), routers);
    if name in RouterNames(routers) {
      var j :| 0 <= j < |routers| && RouterNames(routers)[j] == name;
      assert pairs[j].0 == name;
    }
    if name in RouterMapping(routers) {
      var j :| 0 <= j < |pairs| && pairs[j].0 == name;
      assert RouterNames(routers)[j] == name;
    }
  }

  /** The check `source == destination` on the selected names: for names of
      routers it holds exactly when they are the same router, and then the
      mapping sends both to the same node id. */
  lemma SameSelectionIsSameRouter(routers: seq<nat>, i: nat, j: nat)
    requires i in routers && j in routers
    ensures Label(i) == Label(j) <==> i == j
    ensures Label(i) == Label(j) <==> RouterMapping(routers)[Label(i)] == RouterMapping(routers)[Label(j)]
  {
    LabelInjective(i, j);
    MappingRoundTrip(routers, i);
    MappingRoundTrip(routers, j);
  }
}
