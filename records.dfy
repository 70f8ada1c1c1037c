/**
 * Result records as the search service returns them: a mapping from field
 * name to string value. The scripts never name the fields they deduplicate
 * on; they take positions of `tuple(sorted(record.items()))`, so this module
 * gives that sorted view.
 */
module Records {
  import opened Text

  type Record = map<string, string>

  /** One `(name, value)` pair of `record.items()`. */
  type Item = (string, string)

  /** Strictly increasing field names. */
  predicate Ascending(names: seq<string>)
  {
    forall i, j | 0 <= i < j < |names| :: Less(names[i], names[j])
  }

  lemma {:induction false} SmallestFieldExists(fields: set<string>)
    requires fields != {}
    ensures exists m :: m in fields && forall f | f in fields && f != m :: Less(m, f)
  {
    var x :| x in fields;
    if fields != {x} {
      var rest := fields - {x};
      SmallestFieldExists(rest);
      var m :| m in rest && forall f | f in rest && f != m :: Less(m, f);
      LessTotal(x, m);
      if Less(x, m) {
        forall f | f in fields && f != x
          ensures Less(x, f)
        {
          if f != m {
            LessTransitive(x, m, f);
          }
        }
      } else {
        forall f | f in fields && f != m
          ensures Less(m, f)
        {
          if f != x {
            assert f in rest;
          }
        }
      }
    }
  }

  /** The field name that `sorted` puts first. */
  function SmallestField(fields: set<string>): (m: string)
    requires fields != {}
    ensures m in fields
    ensures forall f | f in fields && f != m :: Less(m, f)
  {
    SmallestFieldExists(fields);
    LessAsymmetric();
    var m :| m in fields && forall f | f in fields && f != m :: Less(m, f);
    m
  }

  /** The field names in the order `sorted` gives them. */
  function SortedFields(fields: set<string>): (names: seq<string>)
    ensures |names| == |fields|
    ensures forall f :: f in names <==> f in fields
    ensures Ascending(names)
    decreases fields
  {
    if fields == {} then []
    else
      var m := SmallestField(fields);
      [m] + SortedFields(fields - {m})
  }

  /** An ascending listing of a set of names is the sorted one: there is only one. */
  lemma {:induction false} SortedFieldsUnique(fields: set<string>, names: seq<string>)
    requires Ascending(names)
    requires forall f :: f in names <==> f in fields
    ensures SortedFields(fields) == names
    decreases fields
  {
    if names == [] {
      assert fields == {};
    } else {
      assert names[0] in fields;
      var m := SmallestField(fields);
      if m != names[0] {
        var j :| 0 <= j < |names| && names[j] == m;
        assert Less(names[0], m);
        LessAsymmetric();
      }
      forall f
        ensures f in names[1..] <==> f in fields - {m}
      {
        if f in names[1..] {
          var j :| 1 <= j < |names| && names[j] == f;
          if f == m {
            LessIrreflexive(f);
          }
        }
        if f in fields - {m} {
          var j :| 0 <= j < |names| && names[j] == f;
          assert j != 0;
          assert names[1..][j - 1] == f;
        }
      }
      SortedFieldsUnique(fields - {m}, names[1..]);
    }
  }

  /** `tuple(sorted(record.items()))`: the record's pairs, ordered by field name. */
  function SortedItems(r: Record): (items: seq<Item>)
    ensures |items| == |r|
    ensures forall i | 0 <= i < |items| :: items[i].0 in r && items[i].1 == r[items[i].0]
    ensures forall i, j | 0 <= i < j < |items| :: Less(items[i].0, items[j].0)
  {
    var names := SortedFields(r.Keys);
    seq(|names|, i requires 0 <= i < |names| => (names[i], r[names[i]]))
  }

  /** Adjacent names in order are enough for the whole listing to be in order. */
  lemma {:induction false} AscendingFromAdjacent(names: seq<string>)
    requires forall i | 0 <= i < |names| - 1 :: Less(names[i], names[i + 1])
    ensures Ascending(names)
  {
    if |names| > 1 {
      AscendingFromAdjacent(names[1..]);
      forall j | 1 <= j < |names|
        ensures Less(names[0], names[j])
      {
        if j > 1 {
          assert names[1..][0] == names[1] && names[1..][j - 1] == names[j];
          LessTransitive(names[0], names[1], names[j]);
        }
      }
    }
  }

  /**
   * When the field names are known, so are the positional items: for a
   * record whose fields are exactly `names` (listed in sorted order), the
   * item at position `i` is the field `names[i]` with its value.
   */
  lemma ItemsOfKnownFields(r: Record, names: seq<string>)
    requires Ascending(names)
    requires forall f :: f in names <==> f in r
    ensures |SortedItems(r)| == |names|
    ensures forall i | 0 <= i < |names| :: names[i] in r && SortedItems(r)[i] == (names[i], r[names[i]])
  {
    SortedFieldsUnique(r.Keys, names);
  }

  /** A record whose fields are exactly the given names. */
  predicate HasExactly(r: Record, names: seq<string>)
  {
    && (forall k | k in names :: k in r)
    && (forall k | k in r :: k in names)
  }

  /**
   * The sorted items of a record with exactly the fields `names`, read off an
   * ascending listing `sorted` of the same names.
   */
  lemma ItemsOfExactFields(r: Record, names: seq<string>, sorted: seq<string>)
    requires HasExactly(r, names)
    requires Ascending(sorted)
    requires forall f :: f in names <==> f in sorted
    ensures |SortedItems(r)| == |sorted|
    ensures forall i | 0 <= i < |sorted| :: sorted[i] in r && SortedItems(r)[i] == (sorted[i], r[sorted[i]])
  {
    ItemsOfKnownFields(r, sorted);
  }

  /** The field test of a site that considers every record. */
  predicate AnyRecord(r: Record) { true }
}
