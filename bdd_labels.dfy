/**
  The per-frame detection labels of the BDD dataset reader: the object filter
  (`filter_data`) and the fixed-width label table built from what it keeps.
  A row of the table is `[class id, centre x, centre y, width, height]`.
 */
module BddLabels {
  import opened Wrappers

  /** The corners of an object's `box2d` entry. */
  datatype Box2d = Box2d(x1: real, y1: real, x2: real, y2: real)

  /**
    One annotated object of a frame, as far as the reader looks at it: its
    raw category, its `box2d` entry if it has one, and its
    `attributes.trafficLightColor` if it has one.
   */
  datatype Obj = Obj(category: string, box2d: Option<Box2d>, trafficLightColor: Option<string>)

  /** Python's `KeyError(key)`: a lookup of a key the dictionary lacks. */
  datatype KeyError = KeyError(key: string)

  /** The box normaliser: `convert((width, height), (x1, x2, y1, y2))`. */
  type Convert = ((real, real), (real, real, real, real)) -> (real, real, real, real)

  /**
    What the reader takes from its configuration and from the class tables:
    the single-class switch, the class-id table, the keys of the single-class
    table, the image shape and the box normaliser.
   */
  datatype Settings = Settings(
    singleCls: bool,
    idDict: map<string, int>,
    idDictSingle: set<string>,
    height: real,
    width: real,
    convert: Convert)

  const TrafficLight := "traffic light"
  const Columns := 5
  const ZeroRow: seq<real> := [0.0, 0.0, 0.0, 0.0, 0.0]

  // ---------------------------------------------------------------------
  // filter_data

  /** The object survives the filter: it has a box and, in single-class
      mode, its raw category is a single-class key. */
  predicate Keep(o: Obj, singleCls: bool, idDictSingle: set<string>)
  {
    o.box2d.Some? && (singleCls ==> o.category in idDictSingle)
  }

  /** The objects of `data` that survive the filter, in their order. */
  function Filtered(data: seq<Obj>, singleCls: bool, idDictSingle: set<string>): (r: seq<Obj>)
    ensures |r| <= |data|
    ensures (forall k :: 0 <= k < |data| ==> Keep(data[k], singleCls, idDictSingle)) ==> r == data
  {
    if data == [] then []
    else
      var last := data[|data| - 1];
      Filtered(data[..|data| - 1], singleCls, idDictSingle)
        + (if Keep(last, singleCls, idDictSingle) then [last] else [])
  }

  /** `filter_data`: builds the surviving objects by appending in a loop. */
  method FilterData(data: seq<Obj>, singleCls: bool, idDictSingle: set<string>)
    returns (remain: seq<Obj>)
    ensures remain == Filtered(data, singleCls, idDictSingle)
  {
    remain := [];
    for i := 0 to |data|
      invariant remain == Filtered(data[..i], singleCls, idDictSingle)
    {
      var obj := data[i];
      assert data[..i + 1][..i] == data[..i];
      if obj.box2d.Some? {
        if singleCls {
          if obj.category in idDictSingle {
            remain := remain + [obj];
          }
        } else {
          remain := remain + [obj];
        }
      }
    }
    assert data[..|data|] == data;
  }

  /** `idx` lists, in increasing order, positions of `s` whose elements are
      exactly `r`. */
  ghost predicate OrderedSelection<T>(idx: seq<int>, r: seq<T>, s: seq<T>)
  {
    && |idx| == |r|
    && (forall k :: 0 <= k < |idx| ==> 0 <= idx[k] < |s| && r[k] == s[idx[k]])
    && (forall k, l :: 0 <= k < l < |idx| ==> idx[k] < idx[l])
  }

  /** The filter keeps, in their original order, exactly the positions whose
      object passes `Keep`: it never invents, drops or reorders anything else. */
  lemma FilteredSelectsKept(data: seq<Obj>, singleCls: bool, idDictSingle: set<string>)
    ensures exists idx :: OrderedSelection(idx, Filtered(data, singleCls, idDictSingle), data)
                       && (forall j :: 0 <= j < |data| ==> (j in idx <==> Keep(data[j], singleCls, idDictSingle)))
  {
    KeptPositionsSelect(data, singleCls, idDictSingle);
    var idx := KeptPositions(data, singleCls, idDictSingle);
    assert OrderedSelection(idx, Filtered(data, singleCls, idDictSingle), data);
  }

  /** The positions of `data` whose object passes the filter, in increasing order. */
  ghost function KeptPositions(data: seq<Obj>, singleCls: bool, idDictSingle: set<string>): seq<int>
  {
    if data == [] then []
    else
      KeptPositions(data[..|data| - 1], singleCls, idDictSingle)
        + (if Keep(data[|data| - 1], singleCls, idDictSingle) then [|data| - 1] else [])
  }

  /** `KeptPositions` is the selection that `Filtered` makes. */
  lemma {:induction false} KeptPositionsSelect(data: seq<Obj>, singleCls: bool, idDictSingle: set<string>)
    ensures OrderedSelection(KeptPositions(data, singleCls, idDictSingle), Filtered(data, singleCls, idDictSingle), data)
    ensures forall j :: 0 <= j < |data| ==>
              (j in KeptPositions(data, singleCls, idDictSingle) <==> Keep(data[j], singleCls, idDictSingle))
  {
    if data != [] {
      var init, last := data[..|data| - 1], data[|data| - 1];
      KeptPositionsSelect(init, singleCls, idDictSingle);
      assert data == init + [last];
      ExtendSelection(init, last, KeptPositions(init, singleCls, idDictSingle), singleCls, idDictSingle);
    }
  }

  /** The inductive step of `FilteredSelectsKept`: one more object at the end. */
  lemma ExtendSelection(init: seq<Obj>, last: Obj, idx0: seq<int>, singleCls: bool, idDictSingle: set<string>)
    requires OrderedSelection(idx0, Filtered(init, singleCls, idDictSingle), init)
    requires forall j :: 0 <= j < |init| ==> (j in idx0 <==> Keep(init[j], singleCls, idDictSingle))
    ensures var data, idx := init + [last], idx0 + (if Keep(last, singleCls, idDictSingle) then [|init|] else []);
            && OrderedSelection(idx, Filtered(data, singleCls, idDictSingle), data)
            && forall j :: 0 <= j < |data| ==> (j in idx <==> Keep(data[j], singleCls, idDictSingle))
  {
    var keep := Keep(last, singleCls, idDictSingle);
    FilteredSnoc(init, last, singleCls, idDictSingle);
    ExtendOrdered(idx0, Filtered(init, singleCls, idDictSingle), init, last, keep);
    ExtendPositions(init, last, idx0, singleCls, idDictSingle);
  }

  lemma FilteredSnoc(init: seq<Obj>, last: Obj, singleCls: bool, idDictSingle: set<string>)
    ensures Filtered(init + [last], singleCls, idDictSingle)
         == Filtered(init, singleCls, idDictSingle) + (if Keep(last, singleCls, idDictSingle) then [last] else [])
  {
    assert (init + [last])[..|init|] == init;
  }

  /** An ordered selection from `s` stays one when `s` grows by `x`, and
      selecting the new last position appends `x`. */
  lemma ExtendOrdered<T>(idx0: seq<int>, r0: seq<T>, s: seq<T>, x: T, keep: bool)
    requires OrderedSelection(idx0, r0, s)
    ensures OrderedSelection(idx0 + (if keep then [|s|] else []), r0 + (if keep then [x] else []), s + [x])
  {
    var idx, r, t := idx0 + (if keep then [|s|] else []), r0 + (if keep then [x] else []), s + [x];
    forall k | 0 <= k < |idx|
      ensures 0 <= idx[k] < |t| && r[k] == t[idx[k]]
    {
      if k < |idx0| {
        assert idx[k] == idx0[k] && r[k] == r0[k];
      }
    }
    forall k, l | 0 <= k < l < |idx|
      ensures idx[k] < idx[l]
    {
      assert idx[k] == idx0[k];
    }
  }

  /** The selected positions stay exactly the kept ones after one more object. */
  lemma ExtendPositions(init: seq<Obj>, last: Obj, idx0: seq<int>, singleCls: bool, idDictSingle: set<string>)
    requires forall k :: 0 <= k < |idx0| ==> 0 <= idx0[k] < |init|
    requires forall j :: 0 <= j < |init| ==> (j in idx0 <==> Keep(init[j], singleCls, idDictSingle))
    ensures var data, idx := init + [last], idx0 + (if Keep(last, singleCls, idDictSingle) then [|init|] else []);
            forall j :: 0 <= j < |data| ==> (j in idx <==> Keep(data[j], singleCls, idDictSingle))
  {
    var data, n := init + [last], |init|;
    var idx := idx0 + (if Keep(last, singleCls, idDictSingle) then [n] else []);
    assert n !in idx0;
    forall j | 0 <= j < |data|
      ensures j in idx <==> Keep(data[j], singleCls, idDictSingle)
    {
      if j < n {
        assert data[j] == init[j];
        assert (j in idx) == (j in idx0);
      }
    }
  }

  /** Every surviving object has a box and, in single-class mode, a raw
      category that is a single-class key. */
  lemma {:induction false} FilteredObjectsPass(data: seq<Obj>, singleCls: bool, idDictSingle: set<string>)
    ensures forall o :: o in Filtered(data, singleCls, idDictSingle) ==> Keep(o, singleCls, idDictSingle)
  {
    if data != [] {
      FilteredObjectsPass(data[..|data| - 1], singleCls, idDictSingle);
    }
  }

  /** Outside single-class mode the single-class table plays no part. */
  lemma {:induction false} MultiClassFilterIgnoresSingleTable(data: seq<Obj>, a: set<string>, b: set<string>)
    ensures Filtered(data, false, a) == Filtered(data, false, b)
  {
    if data != [] {
      MultiClassFilterIgnoresSingleTable(data[..|data| - 1], a, b);
    }
  }

  /** The filter tests the raw category, before the traffic-light renaming:
      listing a colour class `tl_<colour>` as a single-class key never lets a
      traffic light through. */
  lemma TrafficLightFilteredByRawName(o: Obj, idDictSingle: set<string>, color: string)
    requires o.category == TrafficLight
    ensures Keep(o, true, idDictSingle + {"tl_" + color}) <==> Keep(o, true, idDictSingle)
  {
    assert ("tl_" + color)[1] != TrafficLight[1];
  }

  // ---------------------------------------------------------------------
  // The label table built by _get_db

  /** The key the category is looked up under: a traffic light is renamed
      after its colour, whose absence raises. */
  function LookupKey(o: Obj): (r: Result<string, KeyError>)
    ensures r.Failure? <==> o.category == TrafficLight && o.trafficLightColor.None?
    ensures r.Failure? ==> r.error == KeyError("trafficLightColor")
    ensures r.Success? && o.category != TrafficLight ==> r.value == o.category
    ensures r.Success? ==> r.value != TrafficLight
  {
    if o.category != TrafficLight then Success(o.category)
    else match o.trafficLightColor
      case None => Failure(KeyError("trafficLightColor"))
      case Some(color) =>
        assert ("tl_" + color)[1] != TrafficLight[1];
        Success("tl_" + color)
  }

  /** The row the loop leaves for one object, or the exception it raises. */
  function Row(o: Obj, cfg: Settings): (r: Result<seq<real>, KeyError>)
    ensures r.Success? ==> |r.value| == Columns
  {
    match LookupKey(o)
    case Failure(e) => Failure(e)
    case Success(key) =>
      if key !in cfg.idDict then Success(ZeroRow)
      else match o.box2d
        case None => Failure(KeyError("box2d"))
        case Some(b) =>
          var clsId := if cfg.singleCls then 0 else cfg.idDict[key];
          var box := cfg.convert((cfg.width, cfg.height), (b.x1, b.x2, b.y1, b.y2));
          Success([clsId as real, box.0, box.1, box.2, box.3])
  }

  /** The whole table: one row of five entries per object, or the first
      exception raised. */
  function Table(data: seq<Obj>, cfg: Settings): (r: Result<seq<seq<real>>, KeyError>)
    ensures r.Success? ==> |r.value| == |data| && forall k :: 0 <= k < |data| ==> |r.value[k]| == Columns
  {
    if data == [] then Success([])
    else match Row(data[0], cfg)
      case Failure(e) => Failure(e)
      case Success(row) =>
        match Table(data[1..], cfg)
        case Failure(e) => Failure(e)
        case Success(rows) => Success([row] + rows)
  }

  /** Object `k` is the first one whose row raises. */
  ghost predicate FirstFailure(data: seq<Obj>, cfg: Settings, k: int)
  {
    && 0 <= k < |data|
    && Row(data[k], cfg).Failure?
    && forall j :: 0 <= j < k ==> Row(data[j], cfg).Success?
  }

  /** The table is built row by row: it has one row of five entries per
      object, row `k` depends on object `k` alone, and a failure is the
      exception of the first object that raises. */
  lemma {:induction false} TableIsRowwise(data: seq<Obj>, cfg: Settings)
    ensures Table(data, cfg).Success? <==> forall k :: 0 <= k < |data| ==> Row(data[k], cfg).Success?
    ensures Table(data, cfg).Success? ==>
              forall k :: 0 <= k < |data| ==> Table(data, cfg).value[k] == Row(data[k], cfg).value
    ensures Table(data, cfg).Failure? ==>
              exists k :: FirstFailure(data, cfg, k) && Row(data[k], cfg).error == Table(data, cfg).error
  {
    if data != [] {
      var tail := data[1..];
      TableIsRowwise(tail, cfg);
      forall k | 0 <= k < |tail|
        ensures tail[k] == data[k + 1]
      {
      }
      if Row(data[0], cfg).Success? && Table(tail, cfg).Failure? {
        var k :| FirstFailure(tail, cfg, k) && Row(tail[k], cfg).error == Table(tail, cfg).error;
        assert FirstFailure(data, cfg, k + 1) by {
          forall j | 0 <= j < k + 1
            ensures Row(data[j], cfg).Success?
          {
            if j > 0 {
              assert data[j] == tail[j - 1];
            }
          }
        }
      } else if Row(data[0], cfg).Failure? {
        assert FirstFailure(data, cfg, 0);
      } else {
        forall k | 0 <= k < |data|
          ensures Row(data[k], cfg).Success?
        {
          if k > 0 {
            assert data[k] == tail[k - 1];
          }
        }
      }
    }
  }

  /** The failing object that raises first is unique. */
  lemma FirstFailureUnique(data: seq<Obj>, cfg: Settings, k: int, m: int)
    requires FirstFailure(data, cfg, k) && FirstFailure(data, cfg, m)
    ensures k == m
  {
  }

  /** The entries of a two-dimensional array, row by row. */
  ghost function Rows(a: array2<real>): seq<seq<real>>
    reads a
  {
    seq(a.Length0, i requires 0 <= i < a.Length0 reads a =>
      seq(a.Length1, j requires 0 <= j < a.Length1 reads a => a[i, j]))
  }

  /**
    The label loop of `_get_db`: allocates a zero table with one row of five
    columns per object and overwrites row `idx` only when the (renamed)
    category is a known class. A missing colour or box raises.
   */
  method LabelTable(data: seq<Obj>, cfg: Settings) returns (r: Result<array2<real>, KeyError>)
    ensures r.Success? <==> Table(data, cfg).Success?
    ensures r.Failure? ==> r.error == Table(data, cfg).error
    ensures r.Success? ==> r.value.Length0 == |data| && r.value.Length1 == Columns
    ensures r.Success? ==> fresh(r.value) && Rows(r.value) == Table(data, cfg).value
  {
    var gt := new real[|data|, Columns]((i, j) => 0.0);
    for idx := 0 to |data|
      invariant gt.Length0 == |data| && gt.Length1 == Columns
      invariant forall k :: 0 <= k < idx ==> Row(data[k], cfg).Success?
      invariant forall i, j :: 0 <= i < idx && 0 <= j < Columns ==> gt[i, j] == Row(data[i], cfg).value[j]
      invariant forall i, j :: idx <= i < |data| && 0 <= j < Columns ==> gt[i, j] == 0.0
    {
      var obj := data[idx];
      var category := obj.category;
      if category == TrafficLight {
        if obj.trafficLightColor.None? {
          RaisesFirst(data, cfg, idx);
          return Failure(KeyError("trafficLightColor"));
        }
        category := "tl_" + obj.trafficLightColor.value;
      }
      if category in cfg.idDict {
        if obj.box2d.None? {
          RaisesFirst(data, cfg, idx);
          return Failure(KeyError("box2d"));
        }
        var b := obj.box2d.value;
        var clsId := cfg.idDict[category];
        if cfg.singleCls {
          clsId := 0;
        }
        gt[idx, 0] := clsId as real;
        var box := cfg.convert((cfg.width, cfg.height), (b.x1, b.x2, b.y1, b.y2));
        gt[idx, 1], gt[idx, 2], gt[idx, 3], gt[idx, 4] := box.0, box.1, box.2, box.3;
      }
    }
    FilledTableIsTable(gt, data, cfg);
    r := Success(gt);
  }

  /** An array holding every object's row, row by row, holds the table. */
  lemma FilledTableIsTable(gt: array2<real>, data: seq<Obj>, cfg: Settings)
    requires gt.Length0 == |data| && gt.Length1 == Columns
    requires forall k :: 0 <= k < |data| ==> Row(data[k], cfg).Success?
    requires forall i, j :: 0 <= i < |data| && 0 <= j < Columns ==> gt[i, j] == Row(data[i], cfg).value[j]
    ensures Table(data, cfg).Success? && Rows(gt) == Table(data, cfg).value
  {
    TableIsRowwise(data, cfg);
    ghost var t := Table(data, cfg).value;
    forall i | 0 <= i < |data|
      ensures Rows(gt)[i] == t[i]
    {
      assert |Rows(gt)[i]| == Columns;
    }
  }

  /** When object `k` is the first to raise, the table raises its exception. */
  lemma RaisesFirst(data: seq<Obj>, cfg: Settings, k: int)
    requires FirstFailure(data, cfg, k)
    ensures Table(data, cfg).Failure? && Table(data, cfg).error == Row(data[k], cfg).error
  {
    TableIsRowwise(data, cfg);
    var m :| FirstFailure(data, cfg, m) && Row(data[m], cfg).error == Table(data, cfg).error;
    FirstFailureUnique(data, cfg, k, m);
  }

  // ---------------------------------------------------------------------
  // Properties of the table

  /** After filtering, every object has a box, so the only exception the
      table can raise is a traffic light without a colour. */
  lemma FilteredTableRaisesOnlyForColour(data: seq<Obj>, cfg: Settings)
    ensures var t := Table(Filtered(data, cfg.singleCls, cfg.idDictSingle), cfg);
            t.Failure? ==> t.error == KeyError("trafficLightColor")
  {
    var kept := Filtered(data, cfg.singleCls, cfg.idDictSingle);
    FilteredObjectsPass(data, cfg.singleCls, cfg.idDictSingle);
    TableIsRowwise(kept, cfg);
    if Table(kept, cfg).Failure? {
      var k :| FirstFailure(kept, cfg, k) && Row(kept[k], cfg).error == Table(kept, cfg).error;
      assert kept[k] in kept;
    }
  }

  /** Unknown categories leave a zero row; a known one gets class 0 in
      single-class mode and its table id otherwise, with the normalised box
      in the other four columns. */
  lemma TableRowContents(data: seq<Obj>, cfg: Settings, k: int)
    requires Table(data, cfg).Success? && 0 <= k < |data|
    ensures LookupKey(data[k]).Success?
    ensures var row, key := Table(data, cfg).value[k], LookupKey(data[k]).value;
            && (key !in cfg.idDict ==> row == ZeroRow)
            && (key in cfg.idDict ==>
                  && data[k].box2d.Some?
                  && row[0] == (if cfg.singleCls then 0.0 else cfg.idDict[key] as real)
                  && var b := data[k].box2d.value;
                     var box := cfg.convert((cfg.width, cfg.height), (b.x1, b.x2, b.y1, b.y2));
                     row[1..] == [box.0, box.1, box.2, box.3])
  {
    TableIsRowwise(data, cfg);
  }

  /** In single-class mode every row, known or not, has class id 0. */
  lemma SingleClassTableHasClassZero(data: seq<Obj>, cfg: Settings)
    requires cfg.singleCls && Table(data, cfg).Success?
    ensures forall k :: 0 <= k < |data| ==> Table(data, cfg).value[k][0] == 0.0
  {
    forall k | 0 <= k < |data|
      ensures Table(data, cfg).value[k][0] == 0.0
    {
      TableRowContents(data, cfg, k);
    }
  }

  /** A coloured traffic light is looked up only under its colour class: an
      entry for the raw name "traffic light" in the class table is never used. */
  lemma TrafficLightIgnoresRawClass(o: Obj, cfg: Settings)
    requires o.category == TrafficLight && o.trafficLightColor.Some?
    ensures LookupKey(o) == Success("tl_" + o.trafficLightColor.value)
    ensures Row(o, cfg) == Row(o, cfg.(idDict := cfg.idDict - {TrafficLight}))
  {
    var key := "tl_" + o.trafficLightColor.value;
    assert key[1] != TrafficLight[1];
    assert key != TrafficLight;
    assert (key in cfg.idDict) == (key in cfg.idDict - {TrafficLight});
  }
}
