/**
  `create_hexagonal_grid` and the part of `start_processing` that calls it:
  the radius derived from the requested area, one `create_hexagon` task per
  centre of the tiling, the results gathered in completion order with a
  progress report after each, and the layer that holds them.

  The thread pool is not modelled: the order in which the tasks complete is
  a parameter, any arrangement of the task indices.
*/
module Assembly {
  import opened Wrappers
  import opened Tiling
  import opened Hexagon
  import Units
  import LayerNaming

  /**
    The circumradius and the square root of 3 that the script computes with
    `math.sqrt`, as exact reals.
  */
  datatype HexGeometry = HexGeometry(radius: real, root3: real) {

    predicate Valid() {
      IsRoot3(root3) && radius > 0.0
    }

    /** `radius` is the square root of `area / (3 * sqrt 3 / 2)`. */
    predicate RadiusFor(area: real) {
      radius * radius * (3.0 * root3 / 2.0) == area
    }

    /** Width `2 * radius` and height `sqrt 3 * radius` of each hexagon. */
    function Size(): HexSize {
      HexSize(2.0 * radius, root3 * radius)
    }
  }

  /** The memory layer the grid is written to: its name, its one attribute field, its features. */
  datatype Layer = Layer(name: string, fields: seq<string>, features: seq<Feature>)

  /** A radius computed for a positive area gives a hexagon of positive width and height. */
  lemma SizeValid(g: HexGeometry)
    requires g.Valid()
    ensures g.Size().Valid()
  {
  }

  /** Each hexagon of the grid encloses exactly the requested area. */
  lemma HexagonHasRequestedArea(g: HexGeometry, area: real, c: HexCell)
    requires g.Valid() && g.RadiusFor(area)
    ensures PolygonArea(CreateHexagon(c.x, c.y, g.radius, c.id, ExactTrig(g.root3)).ring) == area
  {
    Area(c.x, c.y, g.radius, c.id, ExactTrig(g.root3), g.root3);
  }

  /** The tasks submitted for `cells`, in submission order: one `create_hexagon` call per centre. */
  function Tasks(cells: seq<HexCell>, radius: real, t: Trig): seq<Feature> {
    seq(|cells|, i requires 0 <= i < |cells| => CreateHexagon(cells[i].x, cells[i].y, radius, cells[i].id, t))
  }

  /** `order` lists the task indices in the order their results arrive: each index once. */
  predicate IsCompletionOrder(order: seq<nat>, n: nat) {
    && |order| == n
    && (forall i :: 0 <= i < n ==> order[i] < n)
    && (forall i, j :: 0 <= i < j < n ==> order[i] != order[j])
  }

  /** The submission order itself is a completion order. */
  lemma IdentityOrder(n: nat)
    ensures IsCompletionOrder(seq(n, i requires 0 <= i => i as nat), n)
  {
  }

  function Range(n: nat): (r: set<nat>)
    ensures |r| == n
    ensures forall v: nat :: v in r <==> v < n
  {
    if n == 0 then {} else Range(n - 1) + {n - 1}
  }

  /** The values of a sequence without repetitions are as many as its elements. */
  lemma {:induction false} DistinctValues(order: seq<nat>)
    requires forall i, j :: 0 <= i < j < |order| ==> order[i] != order[j]
    ensures |set i | 0 <= i < |order| :: order[i]| == |order|
  {
    if |order| > 0 {
      var init := order[..|order| - 1];
      DistinctValues(init);
      var last := order[|order| - 1];
      assert (set i | 0 <= i < |order| :: order[i]) == (set i | 0 <= i < |init| :: init[i]) + {last};
      assert last !in (set i | 0 <= i < |init| :: init[i]);
    }
  }

  lemma {:induction false} SubsetSameSize(a: set<nat>, b: set<nat>)
    requires a <= b && |a| == |b|
    ensures a == b
  {
    if a != b {
      var v :| v in b && v !in a;
      assert a <= b - {v};
      SubsetCard(a, b - {v});
    }
  }

  lemma {:induction false} SubsetCard(a: set<nat>, b: set<nat>)
    requires a <= b
    ensures |a| <= |b|
    decreases |b|
  {
    if a != {} {
      var v :| v in a;
      SubsetCard(a - {v}, b - {v});
    }
  }

  /** Every task's result arrives: a completion order covers all task indices. */
  lemma CompletionOrderCovers(order: seq<nat>, n: nat)
    requires IsCompletionOrder(order, n)
    ensures forall v: nat :: v < n ==> v in order
  {
    var values := set i | 0 <= i < |order| :: order[i];
    DistinctValues(order);
    SubsetSameSize(values, Range(n));
    forall v: nat | v < n ensures v in order {
      assert v in Range(n);
      assert v in values;
    }
  }

  /**
    The `as_completed` loop: results are appended in completion order and
    after each one the callback receives the number gathered so far and the
    number of tasks.
  */
  method CollectResults(tasks: seq<Feature>, order: seq<nat>) returns (features: seq<Feature>, progress: seq<(nat, nat)>)
    requires IsCompletionOrder(order, |tasks|)
    ensures |features| == |tasks|
    ensures forall i :: 0 <= i < |features| ==> features[i] == tasks[order[i]]
    ensures |progress| == |tasks|
    ensures forall i :: 0 <= i < |progress| ==> progress[i] == (i + 1, |tasks|)
  {
    var total := |tasks|;
    features := [];
    progress := [];
    var i := 0;
    while i < total
      invariant 0 <= i <= total
      invariant |features| == i && |progress| == i
      invariant forall k :: 0 <= k < i ==> features[k] == tasks[order[k]]
      invariant forall k :: 0 <= k < i ==> progress[k] == (k + 1, total)
    {
      features := features + [tasks[order[i]]];
      progress := progress + [(i + 1, total)];
      i := i + 1;
    }
  }

  /** The progress bar value `int(current / total * 100)`, in exact arithmetic. */
  function ProgressPercent(current: nat, total: nat): (p: nat)
    requires 0 < total && current <= total
    ensures p <= 100
    ensures p == 100 <==> current == total
  {
    var p := (current * 100) / total;
    DivBounds(current * 100, total);
    if current == total then
      MulCancel(p, 101, total);
      MulCancel(100, p + 1, total);
      p
    else
      MulCancel(p, 100, total);
      p
  }

  /** Euclidean division brackets its dividend. */
  lemma DivBounds(a: nat, d: nat)
    requires 0 < d
    ensures (a / d) * d <= a < (a / d + 1) * d
  {
  }

  lemma MulCancel(x: int, y: int, d: nat)
    requires 0 < d && x * d < y * d
    ensures x < y
  {
  }

  lemma DivMonotone(a: nat, b: nat, d: nat)
    requires a <= b && 0 < d
    ensures a / d <= b / d
  {
    DivBounds(a, d);
    DivBounds(b, d);
    MulCancel(a / d, b / d + 1, d);
  }

  /**
    The progress reports count up one by one to the total, so the bar
    only moves forward and ends full.
  */
  lemma ProgressAdvances(progress: seq<(nat, nat)>, n: nat)
    requires |progress| == n && forall i :: 0 <= i < n ==> progress[i] == (i + 1, n)
    ensures forall i, j :: 0 <= i < j < n ==> progress[i].0 < progress[j].0
    ensures forall i, j :: 0 <= i < j < n ==>
      ProgressPercent(progress[i].0, n) <= ProgressPercent(progress[j].0, n)
    ensures n > 0 ==> progress[n - 1] == (n, n) && ProgressPercent(progress[n - 1].0, n) == 100
  {
    forall i, j | 0 <= i < j < n
      ensures ProgressPercent(progress[i].0, n) <= ProgressPercent(progress[j].0, n)
    {
      DivMonotone(progress[i].0 * 100, progress[j].0 * 100, n);
    }
  }

  /**
    `create_hexagonal_grid`: `None` when the area is missing (an unknown
    unit upstream) or not positive; otherwise a layer named `layerName` with
    one integer field `id` and one hexagon per centre of the tiling, in the
    order the tasks complete, with a progress report after each.
  */
  method CreateHexagonalGrid(layerName: string, hexArea: Option<real>, g: HexGeometry, e: Extent, order: seq<nat>)
    returns (layer: Option<Layer>, progress: seq<(nat, nat)>)
    requires hexArea.Some? && hexArea.value > 0.0 ==> g.Valid() && g.RadiusFor(hexArea.value)
    requires hexArea.Some? && hexArea.value > 0.0 && g.Valid() ==> IsCompletionOrder(order, |Cells(e, g.Size())|)
    ensures hexArea.None? || hexArea.value <= 0.0 <==> layer.None?
    ensures layer.None? ==> progress == []
    ensures layer.Some? ==>
      && layer.value.name == layerName
      && layer.value.fields == ["id"]
      && |layer.value.features| == |Cells(e, g.Size())| == |progress|
      && forall i :: 0 <= i < |layer.value.features| ==>
           var c := Cells(e, g.Size())[order[i]];
           layer.value.features[i] == CreateHexagon(c.x, c.y, g.radius, order[i], ExactTrig(g.root3))
    ensures layer.Some? ==> forall i :: 0 <= i < |progress| ==> progress[i] == (i + 1, |progress|)
  {
    if hexArea.None? || hexArea.value <= 0.0 {
      return None, [];
    }
    var s := g.Size();
    var cells := EnumerateCentres(e, s);
    var tasks := Tasks(cells, g.radius, ExactTrig(g.root3));
    var features;
    features, progress := CollectResults(tasks, order);
    layer := Some(Layer(layerName, ["id"], features));
  }

  /**
    As written, the dialog accepts an area of 0, which gives radius 0 and
    row and column steps of 0: over an extent of positive height the outer
    loop's `y` never moves, so no number of passes ends it.
  */
  lemma ZeroAreaLoopsForever(e: Extent, root3: real)
    requires IsRoot3(root3) && e.yMin < e.yMax
    ensures HexGeometry(0.0, root3).RadiusFor(0.0)
    ensures HexGeometry(0.0, root3).Size().RowStep() == 0.0
    ensures HexGeometry(0.0, root3).Size().ColumnStep() == 0.0
    ensures forall n: nat :: !IsStepCount(e.yMin, e.yMax, 0.0, n)
  {
    forall n: nat ensures !IsStepCount(e.yMin, e.yMax, 0.0, n) {
      OffsetClosedForm(e.yMin, 0.0, n);
      assert Offset(e.yMin, 0.0, n) < e.yMax;
    }
  }

  /** The feature ids of the finished layer are `0 .. n-1`, each exactly once, in completion order. */
  lemma GridIds(g: HexGeometry, e: Extent, order: seq<nat>, features: seq<Feature>)
    requires g.Valid() && IsCompletionOrder(order, |Cells(e, g.Size())|)
    requires |features| == |order|
    requires forall i :: 0 <= i < |features| ==>
      var c := Cells(e, g.Size())[order[i]];
      features[i] == CreateHexagon(c.x, c.y, g.radius, order[i], ExactTrig(g.root3))
    ensures forall i :: 0 <= i < |features| ==> features[i].attributes == [order[i]]
    ensures forall id :: 0 <= id < |features| ==> exists i :: 0 <= i < |features| && features[i].attributes == [id]
    ensures forall i, j :: 0 <= i < j < |features| ==> features[i].attributes != features[j].attributes
  {
    CompletionOrderCovers(order, |features|);
    forall id | 0 <= id < |features| ensures exists i :: 0 <= i < |features| && features[i].attributes == [id] {
      assert id in order;
      var i :| 0 <= i < |features| && order[i] == id;
      assert features[i].attributes == [id];
    }
  }

  /**
    The part of `start_processing` around the grid: convert the area, pick
    a free layer name, build the grid. The run stops with no layer when
    every candidate name is taken, and the grid is `None` for an unknown
    unit.
  */
  method StartProcessing(existing: set<string>, area: real, unit: string, g: HexGeometry, e: Extent, order: seq<nat>)
    returns (layer: Option<Layer>)
    requires var m := Units.ConvertAreaToSquareMeters(area, unit);
      m.Some? && m.value > 0.0 ==> g.Valid() && g.RadiusFor(m.value) && IsCompletionOrder(order, |Cells(e, g.Size())|)
    // a layer exactly for a dialog unit, a positive area and a free name
    ensures layer.Some? <==>
      unit in Units.DialogUnits && area > 0.0 && LayerNaming.ChooseLayerName(existing).Some?
    // named as the naming step chose, so with a name no layer carries
    ensures layer.Some? ==> LayerNaming.ChooseLayerName(existing) == Some(layer.value.name)
    ensures layer.Some? ==> layer.value.name !in existing
    // holding the grid's hexagons for the converted area, in completion order
    ensures layer.Some? ==>
      && layer.value.fields == ["id"]
      && |layer.value.features| == |Cells(e, g.Size())|
      && forall i :: 0 <= i < |layer.value.features| ==>
           var c := Cells(e, g.Size())[order[i]];
           layer.value.features[i] == CreateHexagon(c.x, c.y, g.radius, order[i], ExactTrig(g.root3))
  {
    var areaM2 := Units.ConvertAreaToSquareMeters(area, unit);
    var name := LayerNaming.ChooseLayerName(existing);
    if name.None? {
      return None;
    }
    if unit in Units.DialogUnits {
      // the converted area is positive exactly when the typed one is
      if area > 0.0 {
        Units.ConversionMonotone(0.0, area, unit);
      } else if area < 0.0 {
        Units.ConversionMonotone(area, 0.0, unit);
      }
    }
    var progress;
    layer, progress := CreateHexagonalGrid(name.value, areaM2, g, e, order);
  }
}
