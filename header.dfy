/**
 * The header container: an ordered list of `key: value` lines, used for the
 * wire form, beside a key-to-value map, used for lookups. Both are updated by
 * `Add`; a key added twice keeps both of its lines but only its last value.
 */
module Headers {
  import opened Text

  /** The wire form of one field, as `format!("{}: {}", key, value)`. */
  function FieldLine(key: string, value: string): string
  {
    key + FieldSep + value
  }

  /** One line per `add` call, in call order. */
  ghost function LinesOf(fields: seq<(string, string)>): (lines: seq<string>)
  {
    seq(|fields|, i requires 0 <= i < |fields| => FieldLine(fields[i].0, fields[i].1))
  }

  /** The map that inserting every pair in order leaves behind. */
  ghost function MapOf(fields: seq<(string, string)>): map<string, string>
  {
    if fields == [] then map[]
    else
      var last := fields[|fields| - 1];
      MapOf(fields[..|fields| - 1])[last.0 := last.1]
  }

  /** The value of the last pair with this key, if any. */
  ghost function LastValue(fields: seq<(string, string)>, key: string): Option<string>
  {
    if fields == [] then None
    else if fields[|fields| - 1].0 == key then Some(fields[|fields| - 1].1)
    else LastValue(fields[..|fields| - 1], key)
  }

  /** Every key that was ever added. */
  ghost function KeysOf(fields: seq<(string, string)>): set<string>
  {
    set i | 0 <= i < |fields| :: fields[i].0
  }

  /** No key or value holds a line terminator. */
  ghost predicate NoLineBreaks(fields: seq<(string, string)>)
  {
    forall i :: 0 <= i < |fields| ==> !Contains(fields[i].0, CRLF) && !Contains(fields[i].1, CRLF)
  }

  /** The map holds exactly the added keys, each with its last value. */
  lemma {:induction false} MapOfLastValue(fields: seq<(string, string)>)
    ensures MapOf(fields).Keys == KeysOf(fields)
    ensures forall key :: key in MapOf(fields) <==> LastValue(fields, key).Some?
    ensures forall key :: key in MapOf(fields) ==> LastValue(fields, key) == Some(MapOf(fields)[key])
  {
    if fields != [] {
      var init := fields[..|fields| - 1];
      MapOfLastValue(init);
      assert fields == init + [fields[|fields| - 1]];
      assert KeysOf(fields) == KeysOf(init) + {fields[|fields| - 1].0} by {
        forall k | k in KeysOf(fields)
          ensures k in KeysOf(init) + {fields[|fields| - 1].0}
        {
          var i :| 0 <= i < |fields| && fields[i].0 == k;
          if i < |fields| - 1 {
            assert init[i].0 == k;
          }
        }
        forall k | k in KeysOf(init)
          ensures k in KeysOf(fields)
        {
          var i :| 0 <= i < |init| && init[i].0 == k;
          assert fields[i].0 == k;
        }
      }
    }
  }

  /** Adding a pair: its key now yields its value, every other key is as before. */
  lemma LastValueAppend(fields: seq<(string, string)>, key: string, value: string, other: string)
    ensures LastValue(fields + [(key, value)], key) == Some(value)
    ensures other != key ==> LastValue(fields + [(key, value)], other) == LastValue(fields, other)
  {
    assert (fields + [(key, value)])[..|fields|] == fields;
  }

  /** A field line holds a line terminator only if its key or value does. */
  lemma FieldLineNoBreaks(key: string, value: string)
    requires !Contains(key, CRLF) && !Contains(value, CRLF)
    ensures !Contains(FieldLine(key, value), CRLF)
  {
    MissingCharClean(FieldSep, CRLF);
    ConcatClean(key, FieldSep, CRLF);
    ConcatClean(key + FieldSep, value, CRLF);
  }

  /** The joined lines of a history without line breaks split back into those lines. */
  lemma LinesRoundTrip(fields: seq<(string, string)>)
    ensures fields != [] && NoLineBreaks(fields) ==>
      Split(Join(LinesOf(fields), CRLF), CRLF) == LinesOf(fields)
  {
    if fields != [] && NoLineBreaks(fields) {
      var lines := LinesOf(fields);
      forall i | 0 <= i < |lines|
        ensures !Contains(lines[i], CRLF)
      {
        FieldLineNoBreaks(fields[i].0, fields[i].1);
      }
      CRLFNoBorder();
      SplitJoin(lines, CRLF);
    }
  }

  class Header {
    var lines: seq<string>
    var mappedLines: map<string, string>
    /** Every `(key, value)` passed to `Add`, in call order. */
    ghost var fields: seq<(string, string)>

    ghost predicate Valid()
      reads this
    {
      lines == LinesOf(fields) && mappedLines == MapOf(fields)
    }

    /** An empty container: no lines and an empty map. */
    constructor ()
      ensures Valid()
      ensures fields == [] && lines == [] && mappedLines == map[]
    {
      lines := [];
      mappedLines := map[];
      fields := [];
    }

    /**
     * Overwrites the map entry of `key` and appends one line at the end; the
     * earlier lines and the entries of the other keys stay as they were.
     */
    method Add(key: string, value: string)
      requires Valid()
      modifies this
      ensures Valid()
      ensures fields == old(fields) + [(key, value)]
      ensures lines == old(lines) + [FieldLine(key, value)]
      ensures mappedLines == old(mappedLines)[key := value]
    {
      mappedLines := mappedLines[key := value];
      lines := lines + [FieldLine(key, value)];
      fields := fields + [(key, value)];
      assert fields[..|fields| - 1] == old(fields);
    }

    /** The last value added under `key`; the key itself when it was never added. */
    function Get(key: string): (value: string)
      reads this
      requires Valid()
      ensures LastValue(fields, key).Some? ==> value == LastValue(fields, key).value
      ensures LastValue(fields, key).None? ==> value == key
    {
      MapOfLastValue(fields);
      if key in mappedLines then mappedLines[key] else key
    }

    /** The map: its keys are exactly the keys ever added, each with its last value. */
    function All(): (m: map<string, string>)
      reads this
      requires Valid()
      ensures m.Keys == KeysOf(fields)
      ensures forall key :: key in m ==> LastValue(fields, key) == Some(m[key])
    {
      MapOfLastValue(fields);
      mappedLines
    }

    /**
     * One line per `Add`, in call order, joined by CRLF with no trailing terminator: empty for an empty
     * container, and otherwise splitting it at CRLF gives back one line per
     * `Add`, in call order.
     */
    function AsStr(): (s: string)
      reads this
      requires Valid()
      ensures s == Join(LinesOf(fields), CRLF)
      ensures fields == [] ==> s == ""
      ensures fields != [] && NoLineBreaks(fields) ==> Split(s, CRLF) == LinesOf(fields)
    {
      LinesRoundTrip(fields);
      Join(lines, CRLF)
    }
  }
}
