/** The placeholder items `insertRandomItems` generates before writing. */
module Items {

  import Decimal

  datatype Item = Item(name: string)

  const NamePrefix: string := "Item "

  /** The name of the item at index i: the prefix followed by i in decimal. */
  function ItemName(i: nat): (s: string)
    ensures |NamePrefix| < |s| && s[..|NamePrefix|] == NamePrefix
    ensures Decimal.AllDigits(s[|NamePrefix|..])
    ensures |s| > |NamePrefix| + 1 ==> s[|NamePrefix|] != '0'
    ensures Decimal.Parse(s[|NamePrefix|..]) == i
  {
    var digits := Decimal.FromNat(i);
    Decimal.ParseFromNat(i);
    assert (NamePrefix + digits)[|NamePrefix|..] == digits;
    NamePrefix + digits
  }

  /** Exactly n items, the one at index i named after i. */
  function MakeItems(n: nat): (items: seq<Item>)
    ensures |items| == n
    ensures forall i :: 0 <= i < n ==> items[i].name == ItemName(i)
  {
    seq(n, i requires 0 <= i < n => Item(ItemName(i)))
  }

  /** Two indices give the same name only when they are equal. */
  lemma ItemNameInjective(i: nat, j: nat)
    ensures ItemName(i) == ItemName(j) <==> i == j
  {
    if ItemName(i) == ItemName(j) {
      var k := |NamePrefix|;
      assert ItemName(i)[k..] == Decimal.FromNat(i);
      assert ItemName(j)[k..] == Decimal.FromNat(j);
      Decimal.FromNatInjective(i, j);
    }
  }

  /** The generated items carry pairwise distinct names. */
  lemma MakeItemsDistinct(n: nat)
    ensures forall i, j :: 0 <= i < n && 0 <= j < n && i != j ==>
              MakeItems(n)[i].name != MakeItems(n)[j].name
  {
    forall i, j | 0 <= i < n && 0 <= j < n && i != j
      ensures MakeItems(n)[i].name != MakeItems(n)[j].name
    {
      ItemNameInjective(i, j);
    }
  }
}
