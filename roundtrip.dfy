/**
  The two converters composed. A TLD's ODUP zone holds, for each ICANN entry
  of the list under the TLD, the record set `psl2odup` writes for it, owned
  by the entry's name relative to the TLD, after the apex policy of the
  header. Exporting that zone with `odup2psl` gives back the entries' lines
  in order, then the TLD itself unless an entry is the bare wildcard `*`,
  which cannot be an entry below a TLD of one label.
 */
module RoundTrip {
  import opened Wrappers
  import opened Names
  import opened Directives
  import opened PslToOdup
  import opened OdupToPsl

  /** The name an entry's record is owned by: the entry's name, less the leading `!` of an exception. */
  function OwnerName(name: Name): Name {
    if |name| > 0 && name[0] != "" && name[0][0] == '!' then [LStripChar(name[0], '!')] + name[1..] else name
  }

  /**
    An entry whose list form reads back as it is: plain labels with a plain
    owner name, and an exception marked with a single `!`.
   */
  predicate Exportable(name: Name) {
    && Plain(name) && !NoFirstChar(name) && Plain(OwnerName(name))
    && (name[0][0] == '!' ==> |name[0]| >= 2 && name[0][1] != '!')
  }

  /** The record set a TLD's zone serves for an entry's record: owned by the record's name relative to the TLD. */
  function EntryRrset(tld: Name, name: Name, ttl: nat): Rrset
    requires !NoFirstChar(name)
  {
    var record := EntryRecord(name).value;
    Rrset(Relativize(FromText(record.owner), tld), true, ttl, ["\"" + record.policy + "\""])
  }

  /** `r` is the record set a TLD's zone serves for an entry the list form reads back, below the TLD. */
  ghost predicate Served(tld: Name, name: Name, ttl: nat, r: Rrset) {
    Exportable(name) && IsProperAncestor(tld, OwnerName(name)) && r == EntryRrset(tld, name, ttl)
  }

  /** The record set of the header's apex policy, owned by the zone's apex. */
  function ApexRrset(ttl: nat): Rrset {
    Rrset([], true, ttl, ["\"" + ApexPolicy + "\""])
  }

  /** Stripping the single `!` of the first label from the joined labels, and putting it back. */
  lemma StripJoin(ls: seq<Label>)
    requires |ls| >= 1 && |ls[0]| >= 2 && ls[0][0] == '!' && ls[0][1] != '!'
    ensures var stripped := Join([ls[0][1..]] + ls[1..], ".");
      LStripChar(Join(ls, "."), '!') == stripped && Join(ls, ".") == "!" + stripped
  {
    var l0 := ls[0];
    assert LStripChar(l0, '!') == l0[1..] by {
      assert l0[1..][0] != '!';
    }
    assert l0 == "!" + l0[1..];
    var ols := [l0[1..]] + ls[1..];
    if |ls| > 1 {
      var tail := "." + Join(ls[1..], ".");
      assert Join(ls, ".") == l0 + tail;
      assert ols[1..] == ls[1..];
      assert Join(ols, ".") == l0[1..] + tail;
      LStripFirst(l0, tail, '!');
    }
  }

  /** The owner text of an entry's record is the list form of its owner name, and the entry's own text adds the `!` back. */
  lemma OwnerText(name: Name)
    requires Exportable(name)
    ensures EntryRecord(name).value.owner == ListText(OwnerName(name))
    ensures EntryText(name) == (if name[0][0] == '!' then "!" else "") + ListText(OwnerName(name))
  {
    if name[0][0] == '!' {
      ExceptionText(name);
    }
  }

  /** For an exception entry, the `!` comes off the front of the entry's text and leaves the owner's list form. */
  lemma ExceptionText(name: Name)
    requires Exportable(name) && name[0][0] == '!'
    ensures LStripChar(EntryText(name), '!') == ListText(OwnerName(name))
    ensures EntryText(name) == "!" + ListText(OwnerName(name))
  {
    var o := OwnerName(name);
    var ls := name[..|name| - 1];
    ListForm(name);
    ListForm(o);
    StripJoin(ls);
    assert LStripChar(name[0], '!') == name[0][1..] by {
      assert name[0][1..][0] != '!';
    }
    assert o[..|o| - 1] == [ls[0][1..]] + ls[1..];
  }

  /** Reading an entry's record owner as a name gives the owner name. */
  lemma OwnerReads(name: Name)
    requires Exportable(name)
    ensures FromText(EntryRecord(name).value.owner) == OwnerName(name)
  {
    OwnerText(name);
    ListFormReads(OwnerName(name));
  }

  /** A relative owner strictly below the TLD is made absolute under it again. */
  lemma RelativeOwner(o: Name, tld: Name)
    requires Plain(o) && IsProperAncestor(tld, o)
    ensures Derelativize(Relativize(o, tld), tld) == o && o != tld
  {
    if tld != [] {
      var rel := Relativize(o, tld);
      assert rel == o[..|o| - |tld|];
      assert PlainLabel(o[|o| - |tld| - 1]);
      assert rel[|rel| - 1] == o[|o| - |tld| - 1];
      assert rel + tld == o;
    }
  }

  /**
    Exporting an entry's record set writes the entry's own line: an exception
    line for an exception, the name for any other entry, and a wildcard mark
    exactly for the bare wildcard's `+bound:0`.
   */
  lemma EntryStep(tld: Name, name: Name, ttl: nat)
    requires Exportable(name) && IsProperAncestor(tld, OwnerName(name))
    ensures ExportStep(tld, EntryRrset(tld, name, ttl)) == Emit(EntryText(name), name[0] == "*" && |name| == 2)
  {
    var record := EntryRecord(name).value;
    EntryRecordReads(name);
    OwnerReads(name);
    OwnerText(name);
    RelativeOwner(OwnerName(name), tld);
    var org := name[0][0] == '!';
    var bound := if org then Unbounded else if name[0] == "*" then Bounded(Some(|name| - 2)) else Bounded(None);
    ReadsStep(tld, EntryRrset(tld, name, ttl), record.policy, org, bound, OwnerName(name));
  }

  /** A record set quoting a policy the resolver reads as `org` and `bound`, owned below the TLD, exports as those say. */
  lemma ReadsStep(tld: Name, r: Rrset, p: string, org: bool, bound: BoundDirective, owner: Name)
    requires r.isTxt && r.texts == ["\"" + p + "\""] && ReadsAs(p, org, bound)
    requires Derelativize(r.owner, tld) == owner && owner != tld
    ensures ExportStep(tld, r) ==
              if org then Emit("!" + ListText(owner), false)
              else if bound.Bounded? then Emit(ListText(owner), bound.labels == Some(0))
              else Skip
  {
    assert RrsetPolicy(r) == Some(p);
  }

  /** The apex policy `+bound -all` writes nothing and does not end the export. */
  lemma ApexSkipped(tld: Name, ttl: nat)
    ensures ExportStep(tld, ApexRrset(ttl)) == Skip
  {
    ApexPolicyReads();
    QuotedPolicy(ApexPolicy);
    assert RrsetPolicy(ApexRrset(ttl)) == Some(ApexPolicy);
    assert Derelativize([], tld) == tld;
  }

  /**
    The round trip: the apex policy and then the entries' record sets export
    as the entries' lines, in order, followed by the TLD unless an entry is
    the bare wildcard.
   */
  lemma ZoneRoundTrip(tld: Name, entries: seq<Name>, rrsets: seq<Rrset>, ttl: nat)
    requires |rrsets| == |entries|
    requires forall j :: 0 <= j < |entries| ==> Served(tld, entries[j], ttl, rrsets[j])
    ensures var out := Exported(tld, Some([ApexRrset(ttl)] + rrsets));
      var wild := exists j :: 0 <= j < |entries| && |entries[j]| == 2 && entries[j][0] == "*";
      && |out| == |entries| + (if wild then 0 else 1)
      && (forall j :: 0 <= j < |entries| ==> out[j] == EntryText(entries[j]))
      && (!wild ==> out[|entries|] == ListText(tld))
  {
    ServedExport(tld, entries, rrsets, ttl);
    var wilds := BareWilds(entries);
    if true in wilds {
      var j :| 0 <= j < |wilds| && wilds[j];
      assert |entries[j]| == 2 && entries[j][0] == "*";
    }
  }

  /** The entries' lines, in order. */
  function EntryTexts(entries: seq<Name>): (lines: seq<string>)
    ensures |lines| == |entries|
    ensures forall j :: 0 <= j < |entries| ==> lines[j] == EntryText(entries[j])
  {
    seq(|entries|, j requires 0 <= j < |entries| => EntryText(entries[j]))
  }

  /** Which entries are the bare wildcard. */
  function BareWilds(entries: seq<Name>): (wilds: seq<bool>)
    ensures |wilds| == |entries|
    ensures forall j :: 0 <= j < |entries| ==> wilds[j] == (|entries[j]| == 2 && entries[j][0] == "*")
  {
    seq(|entries|, j requires 0 <= j < |entries| => |entries[j]| == 2 && entries[j][0] == "*")
  }

  /** The served zone exports as the entries' lines, then the TLD unless an entry is the bare wildcard. */
  lemma ServedExport(tld: Name, entries: seq<Name>, rrsets: seq<Rrset>, ttl: nat)
    requires |rrsets| == |entries|
    requires forall j :: 0 <= j < |entries| ==> Served(tld, entries[j], ttl, rrsets[j])
    ensures Exported(tld, Some([ApexRrset(ttl)] + rrsets))
            == EntryTexts(entries) + if true in BareWilds(entries) then [] else [ListText(tld)]
  {
    ServedSteps(tld, entries, rrsets, ttl);
    ApexSkipped(tld, ttl);
    ExportedLines(tld, ApexRrset(ttl), rrsets, EntryTexts(entries), BareWilds(entries));
  }

  /**
    Below a TLD no entry is the bare wildcard: `*.tld` is written as
    `+bound:1`, never as the `+bound:0` that withholds the TLD's own line, so
    the TLD always follows its entries.
   */
  lemma TldLineKept(tld: Name, entries: seq<Name>, rrsets: seq<Rrset>, ttl: nat)
    requires |tld| >= 2 && |rrsets| == |entries|
    requires forall j :: 0 <= j < |entries| ==> Served(tld, entries[j], ttl, rrsets[j])
    ensures var out := Exported(tld, Some([ApexRrset(ttl)] + rrsets));
      && |out| == |entries| + 1
      && (forall j :: 0 <= j < |entries| ==> out[j] == EntryText(entries[j]))
      && out[|entries|] == ListText(tld)
  {
    ZoneRoundTrip(tld, entries, rrsets, ttl);
    forall j | 0 <= j < |entries|
      ensures |entries[j]| > 2
    {
      assert Served(tld, entries[j], ttl, rrsets[j]);
      assert |OwnerName(entries[j])| == |entries[j]|;
    }
  }

  /** Each entry's record set exports as the entry's line. */
  lemma ServedSteps(tld: Name, entries: seq<Name>, rrsets: seq<Rrset>, ttl: nat)
    requires |rrsets| == |entries|
    requires forall j :: 0 <= j < |entries| ==> Served(tld, entries[j], ttl, rrsets[j])
    ensures forall j :: 0 <= j < |entries| ==>
              ExportStep(tld, rrsets[j]) == Emit(EntryText(entries[j]), |entries[j]| == 2 && entries[j][0] == "*")
  {
    forall j | 0 <= j < |entries|
      ensures ExportStep(tld, rrsets[j]) == Emit(EntryText(entries[j]), |entries[j]| == 2 && entries[j][0] == "*")
    {
      assert Served(tld, entries[j], ttl, rrsets[j]);
      EntryStep(tld, entries[j], ttl);
    }
  }
}
