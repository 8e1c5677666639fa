/**
 Parsing what was printed (src/core/Json.cpp): the exact value that comes back,
 and exactly which values come back unchanged.
 */
module JsonRoundTrip {
  import opened Text
  import opened JsonValue
  import opened JsonParse
  import opened JsonPrint
  import G = JsonGrammar

  /**
   What survives printing: a double without a JSON form becomes null, and of
   several members with one key the last value stays, in the first position.
   */
  function Normal(v: Value): Value {
    match v
    case Real(d) => if d.NonFinite? then Null else v
    case Arr(items) => Arr(NormalItems(items))
    case Obj(members) => Obj(NormalMembers(members, []))
    case _ => v
  }

  function NormalItems(items: seq<Value>): seq<Value> {
    if items == [] then [] else [Normal(items[0])] + NormalItems(items[1..])
  }

  function NormalMembers(members: seq<Member>, before: seq<Member>): seq<Member>
    decreases members
  {
    if members == [] then before
    else NormalMembers(members[1..], SetMember(before, members[0].key, Normal(members[0].value)))
  }

  // ---- the printed tree means the normal form -----------------------------------

  lemma {:induction false} TreeExact(v: Value, indent: int, depth: nat, room: int)
    requires FitsDepth(v, room)
    ensures var n := TreeOf(v, indent, depth); G.ValidNode(n) && G.Nested(n, room) && G.Meaning(n) == Normal(v)
    decreases v, 1
  {
    hide Overflows, ElementsOf, MembersOf, TokensOf, G.StringMeaning, G.ElementsMeaning, G.MembersMeaning;
    match v
    case Integer(i) =>
    case Str(s) =>
      TokensOfExact(s);
    case Arr(items) =>
      if items != [] {
        ElementsExact(items, indent, depth, room - 1);
      }
    case Obj(members) =>
      if members != [] {
        MembersExact(members, indent, depth, room - 1, []);
      }
    case _ =>
  }

  lemma PadIsWs(indent: int, depth: nat)
    ensures G.AllWs(NewLine(indent) + Pad(indent, depth))
  {
  }

  lemma {:induction false} ElementsExact(items: seq<Value>, indent: int, depth: nat, room: int)
    requires items != [] && forall i :: 0 <= i < |items| ==> FitsDepth(items[i], room)
    ensures var es := ElementsOf(items, indent, depth);
            G.ValidElements(es) && G.NestedElements(es, room) && G.ElementsMeaning(es) == NormalItems(items)
    decreases items, 0
  {
    hide TreeOf, Pad, NewLine, Normal, G.Meaning, G.Nested, FitsDepth;
    PadIsWs(indent, depth);
    PadIsWs(indent, depth + 1);
    TreeExact(items[0], indent, depth + 1, room);
    if |items| > 1 {
      ElementsExact(items[1..], indent, depth, room);
    }
  }

  lemma {:induction false} MembersExact(members: seq<Member>, indent: int, depth: nat, room: int, before: seq<Member>)
    requires members != [] && forall i :: 0 <= i < |members| ==> FitsDepth(members[i].value, room)
    ensures var ms := MembersOf(members, indent, depth);
            && G.ValidMembers(ms) && G.NestedMembers(ms, room)
            && G.MembersMeaning(ms, before) == NormalMembers(members, before)
    decreases members, 0
  {
    hide TreeOf, Pad, NewLine, Normal, TokensOf, SetMember, G.Meaning, G.Nested, G.StringMeaning, FitsDepth;
    PadIsWs(indent, depth);
    PadIsWs(indent, depth + 1);
    TokensOfExact(members[0].key);
    TreeExact(members[0].value, indent, depth + 1, room);
    if |members| > 1 {
      MembersExact(members[1..], indent, depth, room, SetMember(before, members[0].key, Normal(members[0].value)));
    } else {
      assert members[1..] == [];
    }
  }

  // ---- canonical values are their own normal form --------------------------------

  lemma {:induction false} CanonicalIsNormal(v: Value)
    requires Canonical(v)
    ensures Normal(v) == v
    decreases v, 1
  {
    if v.Arr? {
      ItemsNormal(v.items);
    } else if v.Obj? {
      MembersNormal(v.members, []);
      assert [] + v.members == v.members;
    }
  }

  lemma {:induction false} ItemsNormal(items: seq<Value>)
    requires forall i :: 0 <= i < |items| ==> Canonical(items[i])
    ensures NormalItems(items) == items
    decreases items, 0
  {
    if items != [] {
      CanonicalIsNormal(items[0]);
      ItemsNormal(items[1..]);
      assert items == [items[0]] + items[1..];
    }
  }

  lemma {:induction false} MembersNormal(members: seq<Member>, before: seq<Member>)
    requires forall i :: 0 <= i < |members| ==> Canonical(members[i].value)
    requires UniqueKeys(before + members)
    ensures NormalMembers(members, before) == before + members
    decreases members, 0
  {
    if members == [] {
      assert before + members == before;
    } else {
      CanonicalIsNormal(members[0].value);
      var read := before + [members[0]];
      forall i | 0 <= i < |before|
        ensures before[i].key != members[0].key
      {
        assert (before + members)[i] == before[i] && (before + members)[|before|] == members[0];
      }
      assert IndexOfKey(before, members[0].key) < 0;
      assert SetMember(before, members[0].key, members[0].value) == read;
      assert read + members[1..] == before + members;
      MembersNormal(members[1..], read);
    }
  }

  lemma {:induction false} NormalIsCanonical(v: Value)
    ensures Canonical(Normal(v))
    decreases v, 1
  {
    if v.Arr? {
      ItemsCanonical(v.items);
    } else if v.Obj? {
      MembersCanonical(v.members, []);
    }
  }

  lemma {:induction false} ItemsCanonical(items: seq<Value>)
    ensures Canonical(Arr(NormalItems(items)))
    decreases items, 0
  {
    hide Normal;
    if items != [] {
      NormalIsCanonical(items[0]);
      ItemsCanonical(items[1..]);
    }
  }

  lemma {:induction false} MembersCanonical(members: seq<Member>, before: seq<Member>)
    requires Canonical(Obj(before))
    ensures Canonical(Obj(NormalMembers(members, before)))
    decreases members, 0
  {
    hide Normal;
    if members != [] {
      NormalIsCanonical(members[0].value);
      SetCanonical(before, members[0].key, Normal(members[0].value));
      MembersCanonical(members[1..], SetMember(before, members[0].key, Normal(members[0].value)));
    }
  }

  lemma SetCanonical(members: seq<Member>, key: string, v: Value)
    requires Canonical(Obj(members)) && Canonical(v)
    ensures Canonical(Obj(SetMember(members, key, v)))
  {
  }

  // ---- the round trip --------------------------------------------------------------

  /** Every value within the depth limit parses back to its normal form, at any indent. */
  lemma PrintedTextParses(v: Value, indent: int, maxDepth: nat)
    requires FitsDepth(v, maxDepth)
    ensures ParseDocument(DumpText(v, indent), maxDepth) == Some(Normal(v))
  {
    var n := TreeOf(v, indent, 0);
    var d := G.Document("", n, "");
    TreeExact(v, indent, 0, maxDepth);
    DumpSpelling(v, indent, 0, "");
    assert DumpText(v, indent) + "" == DumpText(v, indent);
    assert "" + G.Spell(n, "") == G.Spell(n, "");
    hide *;
    assert G.AllWs("") && G.Derives(d, DumpText(v, indent), maxDepth);
    G.DocumentParses(d, DumpText(v, indent), maxDepth);
  }

  /**
   parse(dump(v, indent)) is v for exactly the values whose objects repeat no
   key, whose doubles are finite and whose nesting and text keep within the limits.
   */
  lemma RoundTripExact(v: Value, indent: int, limits: Limits)
    ensures Parse(DumpText(v, indent), limits) == Some(v)
       <==> Canonical(v) && FitsDepth(v, limits.maxDepth) && |DumpText(v, indent)| <= limits.maxLength
  {
    hide DumpText, ParseDocument, Normal, Canonical, FitsDepth;
    var text := DumpText(v, indent);
    if Canonical(v) && FitsDepth(v, limits.maxDepth) {
      CanonicalIsNormal(v);
      PrintedTextParses(v, indent, limits.maxDepth);
    }
    if ParseDocument(text, limits.maxDepth) == Some(v) {
      ParsedFits(text, limits.maxDepth);
      PrintedTextParses(v, indent, limits.maxDepth);
      NormalIsCanonical(v);
    }
  }

  lemma ParsedFits(text: string, maxDepth: nat)
    requires ParseDocument(text, maxDepth).Some?
    ensures FitsDepth(ParseDocument(text, maxDepth).value, maxDepth)
  {
    ParsedIsTidy(SkipWs(text), 0, maxDepth);
  }
}
