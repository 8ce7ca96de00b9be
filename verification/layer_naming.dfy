/**
  The choice of the output layer's name before a grid is created: `HexGrid`
  when no layer of the project has that name, otherwise the first free name
  among `HexGrid_1` … `HexGrid_99`, and no name at all (the run is
  abandoned) when all hundred are taken.

  The project's layers are the set of names in use; a name is free when no
  layer carries it.
*/
module LayerNaming {
  import opened Wrappers

  const BaseName: string := "HexGrid"

  /** Number of candidate names: the base name and the indexed names 1..99. */
  const NameLimit: nat := 100

  predicate IsDigit(c: char) {
    '0' <= c <= '9'
  }

  function DigitChar(d: nat): (c: char)
    requires d < 10
    ensures IsDigit(c)
  {
    (48 + d) as char
  }

  function DigitValue(c: char): (d: nat)
    requires IsDigit(c)
    ensures d < 10
  {
    c as int - 48
  }

  /** Python's `str(n)` for a natural number: decimal digits without leading zeros. */
  function DecimalString(n: nat): (r: string)
    ensures |r| >= 1
    ensures forall k :: 0 <= k < |r| ==> IsDigit(r[k])
    ensures |r| > 1 ==> r[0] != '0'
    ensures n < 10 <==> |r| == 1
  {
    if n < 10 then [DigitChar(n)] else DecimalString(n / 10) + [DigitChar(n % 10)]
  }

  /** Value of a string of decimal digits. */
  function ParseDecimal(s: string): nat
    requires forall k :: 0 <= k < |s| ==> IsDigit(s[k])
  {
    if |s| == 0 then 0 else ParseDecimal(s[..|s| - 1]) * 10 + DigitValue(s[|s| - 1])
  }

  /** Printing a number and reading it back gives the number. */
  lemma {:induction false} DecimalRoundTrip(n: nat)
    ensures ParseDecimal(DecimalString(n)) == n
  {
    var r := DecimalString(n);
    if n >= 10 {
      DecimalRoundTrip(n / 10);
      assert r[..|r| - 1] == DecimalString(n / 10);
    }
  }

  /** Different numbers print differently. */
  lemma DecimalInjective(i: nat, j: nat)
    requires DecimalString(i) == DecimalString(j)
    ensures i == j
  {
    DecimalRoundTrip(i);
    DecimalRoundTrip(j);
  }

  /** `f'HexGrid_{i}'`. */
  function IndexedLayerName(i: nat): (r: string)
    ensures |r| > |BaseName| && r[..|BaseName|] == BaseName
  {
    BaseName + "_" + DecimalString(i)
  }

  /** Indexed names are pairwise distinct and all differ from the base name. */
  lemma IndexedNamesDistinct(i: nat, j: nat)
    ensures IndexedLayerName(i) != BaseName
    ensures IndexedLayerName(i) == IndexedLayerName(j) <==> i == j
  {
    if IndexedLayerName(i) == IndexedLayerName(j) {
      var p := |BaseName| + 1;
      assert IndexedLayerName(i)[p..] == DecimalString(i);
      assert IndexedLayerName(j)[p..] == DecimalString(j);
      DecimalInjective(i, j);
    }
  }

  /** The `for i in range(i, 100)` search for the first indexed name no layer carries. */
  function FirstFreeIndex(existing: set<string>, i: nat): (r: Option<nat>)
    requires 1 <= i <= NameLimit
    ensures r.Some? ==> i <= r.value < NameLimit && IndexedLayerName(r.value) !in existing
    ensures r.Some? ==> forall j :: i <= j < r.value ==> IndexedLayerName(j) in existing
    ensures r.None? <==> forall j :: i <= j < NameLimit ==> IndexedLayerName(j) in existing
    decreases NameLimit - i
  {
    if i == NameLimit then None
    else if IndexedLayerName(i) !in existing then Some(i)
    else FirstFreeIndex(existing, i + 1)
  }

  /**
    The name given to the new grid layer, or `None` when `HexGrid` and all of
    `HexGrid_1` … `HexGrid_99` are taken and the run stops.
  */
  function ChooseLayerName(existing: set<string>): (r: Option<string>)
    // the chosen name is free
    ensures r.Some? ==> r.value !in existing
    // the base name whenever it is free
    ensures BaseName !in existing <==> r == Some(BaseName)
    // otherwise the indexed name with the smallest free index
    ensures r.Some? && r.value != BaseName ==>
      exists i :: 1 <= i < NameLimit && r.value == IndexedLayerName(i)
        && forall j :: 1 <= j < i ==> IndexedLayerName(j) in existing
    // no name exactly when every candidate is taken
    ensures r.None? <==> BaseName in existing && forall j :: 1 <= j < NameLimit ==> IndexedLayerName(j) in existing
  {
    if BaseName !in existing then
      Some(BaseName)
    else
      match FirstFreeIndex(existing, 1)
      case None => None
      case Some(i) => Some(IndexedLayerName(i))
  }

  /** The hundred candidate names in the order they are tried. */
  function Candidates(): (r: seq<string>)
    ensures |r| == NameLimit && r[0] == BaseName
    ensures forall k :: 1 <= k < |r| ==> r[k] == IndexedLayerName(k)
  {
    [BaseName] + seq(NameLimit - 1, k requires 0 <= k => IndexedLayerName(k + 1))
  }

  /** Reference search: the first element of `cands` outside `existing`. */
  function FirstOutside(cands: seq<string>, existing: set<string>): (r: Option<string>)
    ensures r.Some? ==> r.value in cands && r.value !in existing
    ensures r.None? <==> forall k :: 0 <= k < |cands| ==> cands[k] in existing
    ensures r.Some? ==> exists k :: 0 <= k < |cands| && cands[k] == r.value
                                      && forall j :: 0 <= j < k ==> cands[j] in existing
  {
    if |cands| == 0 then None
    else if cands[0] !in existing then Some(cands[0])
    else FirstOutside(cands[1..], existing)
  }

  /** The indexed search agrees with the reference search over the remaining candidates. */
  lemma {:induction false} FirstFreeIndexIsFirstOutside(existing: set<string>, i: nat)
    requires 1 <= i <= NameLimit
    ensures FirstOutside(Candidates()[i..], existing)
         == match FirstFreeIndex(existing, i)
            case None => None
            case Some(j) => Some(IndexedLayerName(j))
    decreases NameLimit - i
  {
    var c := Candidates();
    if i == NameLimit {
      assert c[i..] == [];
    } else {
      var rest := c[i..];
      assert rest[0] == IndexedLayerName(i);
      if IndexedLayerName(i) in existing {
        assert rest[1..] == c[i + 1..];
        assert FirstOutside(rest, existing) == FirstOutside(c[i + 1..], existing);
        assert FirstFreeIndex(existing, i) == FirstFreeIndex(existing, i + 1);
        FirstFreeIndexIsFirstOutside(existing, i + 1);
      } else {
        assert FirstFreeIndex(existing, i) == Some(i);
      }
    }
  }

  /** The name chosen is the first free one among `HexGrid`, `HexGrid_1`, …, `HexGrid_99`. */
  lemma ChooseIsFirstFreeCandidate(existing: set<string>)
    ensures ChooseLayerName(existing) == FirstOutside(Candidates(), existing)
  {
    FirstFreeIndexIsFirstOutside(existing, 1);
  }

  /** Taking the chosen name makes the next choice different. */
  lemma NextChoiceDiffers(existing: set<string>)
    requires ChooseLayerName(existing).Some?
    ensures ChooseLayerName(existing + {ChooseLayerName(existing).value}) != ChooseLayerName(existing)
  {
  }

  /**
    With `HexGrid` and `HexGrid_1` … `HexGrid_{n-1}` taken and nothing else,
    the next grid is `HexGrid_n`: repeated runs number their layers 1, 2, 3, …
  */
  lemma SequentialNumbering(n: nat)
    requires 1 <= n < NameLimit
    ensures ChooseLayerName({BaseName} + set j | 1 <= j < n :: IndexedLayerName(j)) == Some(IndexedLayerName(n))
  {
    var existing := {BaseName} + set j | 1 <= j < n :: IndexedLayerName(j);
    assert forall j :: 1 <= j < n ==> IndexedLayerName(j) in existing by {
      forall j | 1 <= j < n ensures IndexedLayerName(j) in existing {
      }
    }
    assert IndexedLayerName(n) !in existing by {
      forall j | 1 <= j < n ensures IndexedLayerName(j) != IndexedLayerName(n) {
        IndexedNamesDistinct(j, n);
      }
      IndexedNamesDistinct(n, n);
    }
    var r := FirstFreeIndex(existing, 1);
    assert r == Some(n);
  }
}
