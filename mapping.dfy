/**
 The mapping resolver of the importer (`getMapping`): from the declared
 mapping entries and the CSV header row it builds the dictionary from CSV
 field name to database column that the row loop uses.
 */
module FieldMapping {

  /** The key of a declared mapping entry: an integer position, when the entry
      was declared as a bare column name, or an explicit CSV field name. */
  datatype Key = Position(index: int) | Name(name: string)

  /** One `field => column` pair of the mapping array, in the array's iteration
      order; the array's keys are distinct, so two entries never share a key. */
  datatype Entry = Entry(key: Key, column: string)

  type Header = seq<string>

  /** The resolved mapping: CSV field name to database column. */
  type Resolved = map<string, string>

  /** The field an entry is looked up under: a bare column name stands for itself. */
  function FieldOf(e: Entry): (f: string)
    ensures e.key.Position? ==> f == e.column
    ensures e.key.Name? ==> f == e.key.name
  {
    match e.key
    case Position(_) => e.column
    case Name(f) => f
  }

  /** The resolved mapping after the entries have been visited in order;
      only fields that occur in the header are kept. */
  function Resolve(entries: seq<Entry>, header: Header): (m: Resolved)
    ensures forall f :: f in m ==> f in header
    ensures forall f :: f in m ==> exists i :: 0 <= i < |entries| && FieldOf(entries[i]) == f && entries[i].column == m[f]
  {
    if entries == [] then map[]
    else
      var prev := Resolve(entries[..|entries| - 1], header);
      var e := entries[|entries| - 1];
      if FieldOf(e) in header then prev[FieldOf(e) := e.column] else prev
  }

  /** `getMapping`: a loop over the declared entries that fills the result in place. */
  method GetMapping(entries: seq<Entry>, header: Header) returns (mapping: Resolved)
    ensures mapping == Resolve(entries, header)
  {
    mapping := map[];
    for i := 0 to |entries|
      invariant mapping == Resolve(entries[..i], header)
    {
      var Entry(key, column) := entries[i];
      var field := if key.Position? then column else key.name;
      if field in header {
        mapping := mapping[field := column];
      }
      assert entries[..i + 1][..i] == entries[..i];
    }
    assert entries[..|entries|] == entries;
  }

  /** A field is resolved exactly when it occurs in the header and some declared
      entry resolves to it; entries whose field is not in the header are dropped. */
  lemma {:induction false} ResolveDomain(entries: seq<Entry>, header: Header, f: string)
    ensures f in Resolve(entries, header) <==>
            f in header && exists i :: 0 <= i < |entries| && FieldOf(entries[i]) == f
  {
    if entries != [] {
      var init := entries[..|entries| - 1];
      ResolveDomain(init, header, f);
      if f in header && (exists i :: 0 <= i < |entries| && FieldOf(entries[i]) == f) {
        var i :| 0 <= i < |entries| && FieldOf(entries[i]) == f;
        if i < |entries| - 1 {
          assert FieldOf(init[i]) == f;
        }
      }
    }
  }

  /** The last entry in the array's order that resolves to a field present in
      the header decides the column that field is mapped to. */
  lemma {:induction false} ResolveLastWins(entries: seq<Entry>, header: Header, i: nat)
    requires i < |entries|
    requires FieldOf(entries[i]) in header
    requires forall j :: i < j < |entries| ==> FieldOf(entries[j]) != FieldOf(entries[i])
    ensures FieldOf(entries[i]) in Resolve(entries, header)
    ensures Resolve(entries, header)[FieldOf(entries[i])] == entries[i].column
  {
    var init := entries[..|entries| - 1];
    if i < |entries| - 1 {
      ResolveLastWins(init, header, i);
    }
  }

  /** A bare column name that occurs in the header, and that no later entry
      resolves to, is mapped to itself. */
  lemma ResolveBareColumn(entries: seq<Entry>, header: Header, i: nat)
    requires i < |entries| && entries[i].key.Position?
    requires entries[i].column in header
    requires forall j :: i < j < |entries| ==> FieldOf(entries[j]) != entries[i].column
    ensures entries[i].column in Resolve(entries, header)
    ensures Resolve(entries, header)[entries[i].column] == entries[i].column
  {
    ResolveLastWins(entries, header, i);
  }

  /** A named entry whose field occurs in the header, and that no later entry
      overrides, maps that field to its declared column. */
  lemma ResolveNamedField(entries: seq<Entry>, header: Header, i: nat)
    requires i < |entries| && entries[i].key.Name?
    requires entries[i].key.name in header
    requires forall j :: i < j < |entries| ==> FieldOf(entries[j]) != entries[i].key.name
    ensures entries[i].key.name in Resolve(entries, header)
    ensures Resolve(entries, header)[entries[i].key.name] == entries[i].column
  {
    ResolveLastWins(entries, header, i);
  }
}
