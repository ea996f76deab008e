/**
  Object identifiers as the table walk sees them: dotted decimal strings.
  The agent's OIDs come without a leading dot ("1.3.6.1..."), the walk's root
  carries one (".1.3.6.1..."), so every test is made on `"." + oid`.
 */
module Oids {

  /** `String.startsWith`. */
  predicate StartsWith(s: string, p: string) {
    |p| <= |s| && s[..|p|] == p
  }

  /** `String.endsWith`. */
  predicate EndsWith(s: string, p: string) {
    |p| <= |s| && s[|s| - |p|..] == p
  }

  /** `String.contains`: `p` occurs in `s` at some position. */
  predicate Contains(s: string, p: string)
    decreases |s|
  {
    StartsWith(s, p) || (s != [] && Contains(s[1..], p))
  }

  /** `oid.substring(oid.lastIndexOf(".") + 1)`: the text after the last dot,
      or the whole string when it has no dot. */
  function LastSegment(oid: string): (seg: string)
    ensures '.' !in seg && EndsWith(oid, seg)
    ensures |seg| == |oid| || oid[|oid| - |seg| - 1] == '.'
  {
    if oid == [] || oid[|oid| - 1] == '.' then []
    else LastSegment(oid[..|oid| - 1]) + [oid[|oid| - 1]]
  }

  predicate IsDigit(c: char) {
    '0' <= c <= '9'
  }

  predicate AllDigits(s: string) {
    forall i :: 0 <= i < |s| ==> IsDigit(s[i])
  }

  /** The value of a string of decimal digits, as `Integer.parseInt` reads it. */
  function DecimalValue(s: string): int {
    if s == [] then 0 else 10 * DecimalValue(s[..|s| - 1]) + (s[|s| - 1] as int - '0' as int)
  }

  /** `Integer.MAX_VALUE`: `parseInt` throws beyond it. */
  const MaxInt: int := 0x7fff_ffff

  /** The row number of a table cell: its last sub-identifier. */
  function RowNumber(oid: string): int {
    DecimalValue(LastSegment(oid))
  }

  /** The subtree test of the walk: `"." + oid` starts with the root and contains `root + "."`. */
  predicate InSubtree(root: string, oid: string) {
    StartsWith("." + oid, root) && Contains("." + oid, root + ".")
  }

  /** A scalar instance is not a table cell. */
  predicate IsScalar(oid: string) {
    EndsWith("." + oid, ".0")
  }

  /** The dotted OID ends in `.0` exactly when its last sub-identifier is `0`. */
  lemma ScalarSegment(oid: string)
    ensures IsScalar(oid) <==> LastSegment(oid) == "0"
  {
    var s := "." + oid;
    if EndsWith(s, ".0") {
      assert s[|s| - 1] == '0' && s[|s| - 2] == '.';
      var init := oid[..|oid| - 1];
      assert oid[|oid| - 1] == '0';
      assert LastSegment(oid) == LastSegment(init) + ['0'];
      if init != [] {
        assert init[|init| - 1] == '.';
      }
    }
    if LastSegment(oid) == "0" {
      assert s[|s| - 1] == '0' && s[|s| - 2] == '.';
      assert s[|s| - 2..] == ".0";
    }
  }

  datatype Kind = OutOfSubtree | Scalar | Cell(row: int)

  /** How the walk treats one OID of a page. */
  function Classify(root: string, oid: string): Kind {
    if !InSubtree(root, oid) then OutOfSubtree
    else if IsScalar(oid) then Scalar
    else Cell(RowNumber(oid))
  }

  /** The last sub-identifier parses to a row number `parseInt` accepts and the
      table can index: digits only, between 1 and `Integer.MAX_VALUE`. */
  predicate RowNumberOk(oid: string) {
    var seg := LastSegment(oid);
    seg != [] && AllDigits(seg) && 1 <= DecimalValue(seg) <= MaxInt
  }

  /** An OID the walk can meet without an exception: if it would be stored as a
      cell, its row number is well formed. */
  predicate Storable(root: string, oid: string) {
    Classify(root, oid).Cell? ==> RowNumberOk(oid)
  }

  lemma {:induction false} ContainsLength(s: string, p: string)
    requires Contains(s, p)
    ensures |p| <= |s|
    decreases |s|
  {
    if !StartsWith(s, p) {
      ContainsLength(s[1..], p);
    }
  }

  /** An OID whose dotted form is no longer than the root, in particular the
      root itself, is never part of the table. */
  lemma ShortOidOutOfSubtree(root: string, oid: string)
    requires |"." + oid| <= |root|
    ensures Classify(root, oid) == OutOfSubtree
  {
    if Contains("." + oid, root + ".") {
      ContainsLength("." + oid, root + ".");
    }
  }

  /** Every strict descendant of the root passes the subtree test; it is a cell
      unless it ends in `.0`. */
  lemma DescendantInSubtree(root: string, oid: string)
    requires StartsWith("." + oid, root + ".")
    ensures InSubtree(root, oid)
    ensures Classify(root, oid) == if IsScalar(oid) then Scalar else Cell(RowNumber(oid))
  {
    var s := "." + oid;
    assert s[..|root|] == (root + ".")[..|root|] == root;
  }

  /** The subtree test is weaker than a descendant test: the root `.1.3`
      accepts `1.31.1.3.5`, which is not below it, as row 5. */
  lemma SubtreeTestAcceptsNonDescendant()
    ensures Classify(".1.3", "1.31.1.3.5") == Cell(5)
    ensures !StartsWith(".1.31.1.3.5", ".1.3.")
  {
    WitnessInSubtree();
    WitnessNotScalar();
    WitnessRowNumber();
    assert ".1.31.1.3.5"[4] == '1';
  }

  lemma WitnessNotScalar()
    ensures !IsScalar("1.31.1.3.5")
  {
    var s := "." + "1.31.1.3.5";
    assert s[|s| - 1] == '5';
  }

  lemma WitnessRowNumber()
    ensures RowNumber("1.31.1.3.5") == 5
  {
    WitnessSplit();
    LastSegmentOfDotted("1.31.1.3", "5");
    WitnessDigit();
  }

  lemma WitnessSplit()
    ensures "1.31.1.3" + "." + "5" == "1.31.1.3.5"
  {
  }

  lemma WitnessDigit()
    ensures DecimalValue("5") == 5
  {
    assert "5"[..0] == [];
  }

  lemma WitnessInSubtree()
    ensures InSubtree(".1.3", "1.31.1.3.5")
  {
    var s := "." + "1.31.1.3.5";
    var p := ".1.3" + ".";
    assert s[5..][..5] == p;
    assert s[4..][1..] == s[5..];
    assert s[3..][1..] == s[4..];
    assert s[2..][1..] == s[3..];
    assert s[1..][1..] == s[2..];
    assert Contains(s[5..], p);
    assert Contains(s[4..], p);
    assert Contains(s[3..], p);
    assert Contains(s[2..], p);
    assert Contains(s[1..], p);
    assert s[..4] == ".1.3";
  }

  /** The row number is the sub-identifier after the last dot. */
  lemma {:induction false} LastSegmentOfDotted(prefix: string, seg: string)
    requires '.' !in seg
    ensures LastSegment(prefix + "." + seg) == seg
    ensures RowNumber(prefix + "." + seg) == DecimalValue(seg)
    decreases |seg|
  {
    var oid := prefix + "." + seg;
    if seg == [] {
    } else {
      var init := seg[..|seg| - 1];
      assert oid[..|oid| - 1] == prefix + "." + init;
      LastSegmentOfDotted(prefix, init);
      assert init + [seg[|seg| - 1]] == seg;
    }
  }
}
