/**
  The database the BDD reader builds: one record per drivable-area mask,
  holding the derived image and lane paths and the frame's label table.
 */
module BddDatabase {
  import opened Wrappers
  import opened BddPaths
  import opened BddLabels

  /** One entry of the database: `{'image', 'label', 'mask', 'lane'}`, with `labelTable` for `'label'`. */
  datatype Record = Record(image: string, labelTable: array2<real>, mask: string, lane: string)

  /** The label table of the frame whose mask path is `mask`, where `load`
      gives the object list of the first frame of a label file. */
  function FrameLabels(mask: string, roots: Roots, load: string -> seq<Obj>, cfg: Settings)
    : (r: Result<seq<seq<real>>, KeyError>)
    ensures r.Success? ==> |r.value| <= |load(LabelPath(mask, roots))|
    ensures r.Failure? ==> r.error == KeyError("trafficLightColor")
  {
    var data := Filtered(load(LabelPath(mask, roots)), cfg.singleCls, cfg.idDictSingle);
    FilteredTableRaisesOnlyForColour(load(LabelPath(mask, roots)), cfg);
    Table(data, cfg)
  }

  /** `rec` is the record `_get_db` appends for `mask`: the mask path, its
      derived image and lane paths, and a label array of one five-column row
      per kept object holding the frame's table. */
  ghost predicate IsRecordOf(rec: Record, mask: string, roots: Roots, load: string -> seq<Obj>, cfg: Settings)
    reads rec.labelTable
  {
    && FrameLabels(mask, roots, load, cfg).Success?
    && rec.mask == mask
    && rec.image == ImagePath(mask, roots)
    && rec.lane == LanePath(mask, roots)
    && rec.labelTable.Length0 == |FrameLabels(mask, roots, load, cfg).value|
    && rec.labelTable.Length1 == Columns
    && Rows(rec.labelTable) == FrameLabels(mask, roots, load, cfg).value
  }

  /** No two records share a label array. */
  predicate DistinctTables(db: seq<Record>)
  {
    forall k, l :: 0 <= k < l < |db| ==> db[k].labelTable != db[l].labelTable
  }

  lemma DistinctAppend(db: seq<Record>, rec: Record)
    requires DistinctTables(db)
    requires forall k :: 0 <= k < |db| ==> db[k].labelTable != rec.labelTable
    ensures DistinctTables(db + [rec])
  {
  }

  /**
    `_get_db`: for every mask, derives its sibling paths, reads and filters
    the frame's objects, builds its label table and appends a record. The
    first exception ends the build. Every record gets an array of its own.
   */
  method GetDb(masks: seq<string>, roots: Roots, load: string -> seq<Obj>, cfg: Settings)
    returns (r: Result<seq<Record>, KeyError>)
    ensures r.Success? <==> forall i :: 0 <= i < |masks| ==> FrameLabels(masks[i], roots, load, cfg).Success?
    ensures r.Failure? ==>
              exists i :: && 0 <= i < |masks|
                          && FrameLabels(masks[i], roots, load, cfg) == Failure(r.error)
                          && forall j :: 0 <= j < i ==> FrameLabels(masks[j], roots, load, cfg).Success?
    ensures r.Success? ==>
              && |r.value| == |masks|
              && (forall i :: 0 <= i < |masks| ==>
                    fresh(r.value[i].labelTable) && IsRecordOf(r.value[i], masks[i], roots, load, cfg))
              && DistinctTables(r.value)
  {
    var db: seq<Record> := [];
    for i := 0 to |masks|
      invariant |db| == i
      invariant forall k :: 0 <= k < i ==> fresh(db[k].labelTable) && IsRecordOf(db[k], masks[k], roots, load, cfg)
      invariant DistinctTables(db)
    {
      var rec := FrameRecord(masks[i], roots, load, cfg);
      if rec.Failure? {
        return Failure(rec.error);
      }
      assert forall k :: 0 <= k < i ==> db[k].labelTable != rec.value.labelTable;
      DistinctAppend(db, rec.value);
      db := db + [rec.value];
    }
    return Success(db);
  }

  /** The body of `_get_db`'s loop for one mask: derives the sibling paths,
      reads and filters the objects, and builds the label array. */
  method FrameRecord(mask: string, roots: Roots, load: string -> seq<Obj>, cfg: Settings)
    returns (r: Result<Record, KeyError>)
    ensures r.Failure? <==> FrameLabels(mask, roots, load, cfg).Failure?
    ensures r.Failure? ==> FrameLabels(mask, roots, load, cfg) == Failure(r.error)
    ensures r.Success? ==> fresh(r.value.labelTable) && IsRecordOf(r.value, mask, roots, load, cfg)
  {
    var labelPath := LabelPath(mask, roots);
    var imagePath := ImagePath(mask, roots);
    var lanePath := LanePath(mask, roots);
    var data := FilterData(load(labelPath), cfg.singleCls, cfg.idDictSingle);
    var gt := LabelTable(data, cfg);
    if gt.Failure? {
      return Failure(gt.error);
    }
    return Success(Record(imagePath, gt.value, mask, lanePath));
  }
}
