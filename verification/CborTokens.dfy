/** CBOR at the level of tokens: values of indefinite-length maps and lists with text and number
    leaves, their serialisation, and a parser. */
module CborTokens {
  import opened Basics

  datatype Token = MapStart | MapEnd | ListStart | ListEnd | Text(s: string) | Number(n: int)

  datatype Value = VText(s: string) | VNumber(n: int) | VList(items: seq<Value>) | VMap(entries: seq<Pair>)

  datatype Pair = Pair(key: string, value: Value)

  function Serialize(v: Value): (t: seq<Token>)
    ensures t != [] && !t[0].ListEnd? && !t[0].MapEnd?
  {
    match v
    case VText(s) => [Text(s)]
    case VNumber(n) => [Number(n)]
    case VList(items) => [ListStart] + SerializeItems(items) + [ListEnd]
    case VMap(entries) => [MapStart] + SerializePairs(entries) + [MapEnd]
  }

  function SerializeItems(items: seq<Value>): seq<Token> {
    if items == [] then [] else Serialize(items[0]) + SerializeItems(items[1..])
  }

  function SerializePairs(entries: seq<Pair>): seq<Token> {
    if entries == [] then []
    else [Text(entries[0].key)] + Serialize(entries[0].value) + SerializePairs(entries[1..])
  }

  /** One value read from the front, and the tokens after it. */
  function Parse(t: seq<Token>): (r: Option<(Value, seq<Token>)>)
    ensures r.Some? ==> |r.value.1| < |t|
    decreases |t|, 0
  {
    if t == [] then None
    else
      match t[0]
      case Text(s) => Some((VText(s), t[1..]))
      case Number(n) => Some((VNumber(n), t[1..]))
      case ListStart =>
        (match ParseItems(t[1..])
         case None => None
         case Some((items, rest)) => Some((VList(items), rest)))
      case MapStart =>
        (match ParsePairs(t[1..])
         case None => None
         case Some((entries, rest)) => Some((VMap(entries), rest)))
      case _ => None
  }

  /** Values up to and including the end of their list. */
  function ParseItems(t: seq<Token>): (r: Option<(seq<Value>, seq<Token>)>)
    ensures r.Some? ==> |r.value.1| < |t|
    decreases |t|, 1
  {
    if t == [] then None
    else if t[0].ListEnd? then Some(([], t[1..]))
    else
      match Parse(t)
      case None => None
      case Some((v, rest)) =>
        match ParseItems(rest)
        case None => None
        case Some((items, after)) => Some(([v] + items, after))
  }

  /** Keys and values up to and including the end of their map. */
  function ParsePairs(t: seq<Token>): (r: Option<(seq<Pair>, seq<Token>)>)
    ensures r.Some? ==> |r.value.1| < |t|
    decreases |t|, 1
  {
    if t == [] then None
    else if t[0].MapEnd? then Some(([], t[1..]))
    else if !t[0].Text? then None
    else
      match Parse(t[1..])
      case None => None
      case Some((v, rest)) =>
        match ParsePairs(rest)
        case None => None
        case Some((entries, after)) => Some(([Pair(t[0].s, v)] + entries, after))
  }

  /** The parser undoes the serialisation of every value, whatever follows it. */
  lemma {:induction false} RoundTrip(v: Value, rest: seq<Token>)
    ensures Parse(Serialize(v) + rest) == Some((v, rest))
    decreases v, 1
  {
    var t := Serialize(v) + rest;
    match v
    case VText(s) => assert t[1..] == rest;
    case VNumber(n) => assert t[1..] == rest;
    case VList(items) =>
      ItemsRoundTrip(v, items, rest);
      assert t[1..] == SerializeItems(items) + ([ListEnd] + rest);
    case VMap(entries) =>
      forall i | 0 <= i < |entries| ensures entries[i].value < v {
        assert entries[i] < v;
      }
      PairsRoundTrip(v, entries, rest);
      assert t[1..] == SerializePairs(entries) + ([MapEnd] + rest);
  }

  lemma {:induction false} ItemsRoundTrip(whole: Value, items: seq<Value>, rest: seq<Token>)
    requires forall i :: 0 <= i < |items| ==> items[i] < whole
    ensures ParseItems(SerializeItems(items) + ([ListEnd] + rest)) == Some((items, rest))
    decreases whole, 0, |items|
  {
    var t := SerializeItems(items) + ([ListEnd] + rest);
    if items == [] {
      assert t == [ListEnd] + rest;
      assert t[1..] == rest;
    } else {
      var after := SerializeItems(items[1..]) + ([ListEnd] + rest);
      assert t == Serialize(items[0]) + after;
      RoundTrip(items[0], after);
      ItemsRoundTrip(whole, items[1..], rest);
      assert [items[0]] + items[1..] == items;
    }
  }

  lemma {:induction false} PairsRoundTrip(whole: Value, entries: seq<Pair>, rest: seq<Token>)
    requires forall i :: 0 <= i < |entries| ==> entries[i].value < whole
    ensures ParsePairs(SerializePairs(entries) + ([MapEnd] + rest)) == Some((entries, rest))
    decreases whole, 0, |entries|
  {
    var t := SerializePairs(entries) + ([MapEnd] + rest);
    if entries == [] {
      assert t == [MapEnd] + rest;
      assert t[1..] == rest;
    } else {
      var after := SerializePairs(entries[1..]) + ([MapEnd] + rest);
      assert t[1..] == Serialize(entries[0].value) + after;
      assert t[0] == Text(entries[0].key);
      RoundTrip(entries[0].value, after);
      PairsRoundTrip(whole, entries[1..], rest);
      assert [Pair(t[0].s, entries[0].value)] + entries[1..] == entries;
    }
  }

  lemma {:induction false} ItemsSnoc(items: seq<Value>, v: Value)
    ensures SerializeItems(items + [v]) == SerializeItems(items) + Serialize(v)
    decreases |items|
  {
    if items == [] {
      assert items + [v] == [v] && [v][1..] == [];
    } else {
      ItemsSnoc(items[1..], v);
      assert (items + [v])[1..] == items[1..] + [v];
    }
  }

  lemma {:induction false} PairsSnoc(entries: seq<Pair>, p: Pair)
    ensures SerializePairs(entries + [p]) == SerializePairs(entries) + [Text(p.key)] + Serialize(p.value)
    decreases |entries|
  {
    if entries == [] {
      assert entries + [p] == [p] && [p][1..] == [];
    } else {
      PairsSnoc(entries[1..], p);
      assert (entries + [p])[1..] == entries[1..] + [p];
    }
  }
}
