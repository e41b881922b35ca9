/** The part of the file's DNA1 catalogue the script consults
    (lookupSdnaIndexForModifierDataStruct): the list of type names and, for
    every SDNA struct, the index of its type. */
module Catalog {

  /** One SDNA struct entry; only its type index (an unsigned 16-bit field)
      is looked at. */
  datatype DnaStruct = DnaStruct(idxType: nat)

  /** `dna1.body`: type names and struct entries, in file order. */
  datatype Catalog = Catalog(types: seq<string>, structs: seq<DnaStruct>)

  /** i is the first position of x in xs. */
  predicate FirstIndex<T(==)>(xs: seq<T>, i: int, x: T) {
    0 <= i < |xs| && xs[i] == x && x !in xs[..i]
  }

  /** Array.prototype.findIndex with an equality test: the first position
      of x, or -1 when x does not occur. */
  function FindIndex<T(==)>(xs: seq<T>, x: T): (r: int)
    ensures -1 <= r < |xs|
    ensures r == -1 <==> x !in xs
    ensures r != -1 ==> FirstIndex(xs, r, x)
  {
    if xs == [] then -1
    else if xs[0] == x then 0
    else
      var k := FindIndex(xs[1..], x);
      assert xs == [xs[0]] + xs[1..];
      if k == -1 then -1
      else
        assert xs[..k + 1] == [xs[0]] + xs[1..][..k];
        k + 1
  }

  /** A value has at most one first position. */
  lemma FirstIndexUnique<T>(xs: seq<T>, i: int, j: int, x: T)
    requires FirstIndex(xs, i, x) && FirstIndex(xs, j, x)
    ensures i == j
  {
  }

  /** The type index of every struct, in order. */
  function StructTypes(c: Catalog): (ts: seq<int>)
    ensures |ts| == |c.structs|
    ensures forall i :: 0 <= i < |ts| ==> ts[i] == c.structs[i].idxType
    ensures -1 !in ts
  {
    seq(|c.structs|, i requires 0 <= i < |c.structs| => c.structs[i].idxType)
  }

  /** lookupSdnaIndexForModifierDataStruct: the position of the first type
      named `name`, then the first struct of that type. -1 when the name is
      missing, or when no struct has the type the first match names. */
  function LookupSdnaIndex(c: Catalog, name: string): (r: int)
    ensures -1 <= r < |c.structs|
    ensures name !in c.types ==> r == -1
    ensures r != -1 ==> exists t :: FirstIndex(c.types, t, name) && FirstIndex(StructTypes(c), r, t)
    ensures r == -1 <==> forall t :: FirstIndex(c.types, t, name) ==> t !in StructTypes(c)
  {
    var idxType := FindIndex(c.types, name);
    var sdnaIndex := FindIndex(StructTypes(c), idxType);
    if idxType == -1 then
      assert forall t :: FirstIndex(c.types, t, name) ==> false;
      sdnaIndex
    else
      assert forall t :: FirstIndex(c.types, t, name) ==> t == idxType by {
        forall t | FirstIndex(c.types, t, name)
          ensures t == idxType
        {
          FirstIndexUnique(c.types, t, idxType, name);
        }
      }
      sdnaIndex
  }
}
