/**
 * Comma-separated lines as `writeCSV` builds them: a line is grown field by field with
 * `oline + ',' + field`, so Join adds the last field to the join of the others. Split
 * reads a line back into its fields.
 */
module CsvText {

  predicate NoComma(f: string) {
    forall k :: 0 <= k < |f| ==> f[k] != ','
  }

  /** No field of the line holds a comma. */
  predicate FieldsNoComma(fs: seq<string>) {
    forall i :: 0 <= i < |fs| ==> NoComma(fs[i])
  }

  lemma NoCommaConcat(a: string, b: string)
    requires NoComma(a) && NoComma(b)
    ensures NoComma(a + b)
  {
    forall k | 0 <= k < |a + b| ensures (a + b)[k] != ',' {
      if k >= |a| {
        assert (a + b)[k] == b[k - |a|];
      }
    }
  }

  lemma FieldsNoCommaConcat(a: seq<string>, b: seq<string>)
    requires FieldsNoComma(a) && FieldsNoComma(b)
    ensures FieldsNoComma(a + b)
  {
    forall i | 0 <= i < |a + b| ensures NoComma((a + b)[i]) {
      if i >= |a| {
        assert (a + b)[i] == b[i - |a|];
      }
    }
  }

  /** The fields joined by commas, built from the front as the writer does. */
  function Join(fs: seq<string>): string {
    if fs == [] then ""
    else if |fs| == 1 then fs[0]
    else Join(fs[..|fs| - 1]) + "," + fs[|fs| - 1]
  }

  /** The index of the last comma in s, or -1 when there is none. */
  function LastComma(s: string): (i: int)
    ensures -1 <= i < |s|
    ensures i >= 0 ==> s[i] == ','
    ensures forall k :: i < k < |s| ==> s[k] != ','
  {
    LastCommaBelow(s, |s|)
  }

  /** The index of the last comma among the first n characters of s, or -1. */
  function LastCommaBelow(s: string, n: nat): (i: int)
    requires n <= |s|
    ensures -1 <= i < n
    ensures i >= 0 ==> s[i] == ','
    ensures forall k :: i < k < n ==> s[k] != ','
  {
    if n == 0 then -1
    else if s[n - 1] == ',' then n - 1
    else LastCommaBelow(s, n - 1)
  }

  /** Growing a joined prefix by one field, as the writer does with `oline + ',' + field`. */
  lemma JoinPrefix(fs: seq<string>, k: nat)
    requires k + 1 < |fs|
    ensures Join(fs[..k + 2]) == Join(fs[..k + 1]) + "," + fs[k + 1]
  {
    assert fs[..k + 2][..k + 1] == fs[..k + 1];
  }

  /** The comma-separated fields of a line. */
  function Split(s: string): (fs: seq<string>)
    ensures |fs| >= 1
    decreases |s|
  {
    var i := LastComma(s);
    if i < 0 then [s] else Split(s[..i]) + [s[i + 1..]]
  }

  /** Appending a comma-free field puts the last comma just before it. */
  lemma LastCommaBeforeField(j: string, last: string)
    requires NoComma(last)
    ensures LastComma(j + "," + last) == |j|
  {
    var s := j + "," + last;
    forall k | |j| < k < |s| ensures s[k] != ',' {
      assert s[k] == last[k - |j| - 1];
    }
    assert s[|j|] == ',';
    LastCommaAt(s, |j|);
  }

  /** The last comma is the comma with no comma after it. */
  lemma LastCommaAt(s: string, i: nat)
    requires i < |s| && s[i] == ','
    requires forall k :: i < k < |s| ==> s[k] != ','
    ensures LastComma(s) == i
  {
    var r := LastComma(s);
    assert r >= 0 ==> s[r] == ',';
  }

  /** Splitting a joined line gives back its fields, as long as no field holds a comma. */
  lemma {:induction false} SplitJoin(fs: seq<string>)
    requires |fs| >= 1 && FieldsNoComma(fs)
    ensures Split(Join(fs)) == fs
  {
    if |fs| == 1 {
      SplitField(fs[0]);
    } else {
      var front, last := fs[..|fs| - 1], fs[|fs| - 1];
      assert FieldsNoComma(front);
      SplitJoin(front);
      SplitAppend(Join(front), last);
      assert front + [last] == fs;
    }
  }

  /** A comma-free field is a line of one field. */
  lemma SplitField(f: string)
    requires NoComma(f)
    ensures Split(f) == [f]
  {
  }

  /** Appending a comma and a comma-free field to a line appends one field. */
  lemma SplitAppend(j: string, last: string)
    requires NoComma(last)
    ensures Split(j + "," + last) == Split(j) + [last]
  {
    var s := j + "," + last;
    LastCommaBeforeField(j, last);
    assert s[..|j|] == j;
    assert s[|j| + 1..] == last;
  }
}
