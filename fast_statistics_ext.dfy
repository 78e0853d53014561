/**
 * The C++ extension's Ruby-facing layer: `build_results_hashes`, the module
 * functions over `DFloat`, the `Array2D` class (`initialize` resolving the
 * `dtype:` and `packed:` options, `descriptive_statistics` dispatching on
 * them) and the table `Init_fast_statistics` builds.
 */
module FastStatistics {
  import opened Base
  import opened Sorting
  import opened Statistics
  import opened Hashes
  import Matrix
  import RubyArrays

  /**
   * `build_results_hashes(stats, num_variables)`: one hash per record, in
   * index order.
   */
  method BuildResultsHashes(stats: array<Stats>, numVariables: nat) returns (results: seq<Hash>)
    requires numVariables <= stats.Length
    ensures |results| == numVariables
    ensures forall i :: 0 <= i < numVariables ==> results[i] == ResultHash(stats[i])
  {
    results := [];
    var i: nat := 0;
    while i < numVariables
      invariant i <= numVariables && |results| == i
      invariant forall k :: 0 <= k < i ==> results[k] == ResultHash(stats[k])
    {
      results := results + [ResultHash(stats[i])];
      i := i + 1;
    }
  }

  /** No inner array is shorter than the first: what the `DFloat` constructor can read. */
  predicate Rectangular(arrays: seq<seq<real>>)
    requires |arrays| >= 1
  {
    forall j :: 0 <= j < |arrays| ==> |arrays[0]| <= |arrays[j]|
  }

  /**
   * The reads of the `DFloat(VALUE arrays)` constructor's nested loop: cell
   * `i` of inner array `j` for every `j` and every `i < rows`, each through
   * `NUM2DBL`, which raises on the nil read past the end of a short inner
   * array. The constructor itself, which copies the cells, is `Matrix.DFloat`.
   */
  method ConvertCells(arrays: seq<seq<real>>) returns (r: Result<()>)
    requires |arrays| >= 1
    ensures r.Ok? <==> Rectangular(arrays)
    ensures r.Err? ==> r.error == TypeError(NilToFloat)
  {
    var cols := |arrays|;
    var rows := |arrays[0]|;
    var j: nat := 0;
    while j < cols
      invariant j <= cols
      invariant forall k :: 0 <= k < j ==> rows <= |arrays[k]|
    {
      var i: nat := 0;
      while i < rows
        invariant i <= rows && i <= |arrays[j]|
      {
        var cell := RubyArrays.Num2Dbl(Entry(arrays[j], i));
        if cell.Err? {
          return Err(cell.error);
        }
        i := i + 1;
      }
      j := j + 1;
    }
    return Ok(());
  }

  /**
   * `descriptive_statistics_packed_float64` (`w == 2`) and
   * `descriptive_statistics_packed_float32` (`w == 4`): copy the input into a
   * `DFloat`, run the lane engine, and build one hash per column. Each hash
   * is the record of the first `rows` elements of its inner array, where
   * `rows` is the length of the first; the caller's arrays are not touched.
   */
  method DescriptiveStatisticsPacked(arrays: seq<seq<real>>, w: nat) returns (r: Result<seq<Hash>>)
    requires |arrays| >= 1 && |arrays[0]| >= 1 && (w == 2 || w == 4)
    ensures r.Ok? <==> Rectangular(arrays)
    ensures r.Err? ==> r.error == TypeError(NilToFloat)
    ensures r.Ok? ==> |r.value| == |arrays| && forall c :: 0 <= c < |arrays| ==>
      r.value[c] == ResultHash(StatsOf(arrays[c][..|arrays[0]|]))
  {
    var read := ConvertCells(arrays);
    if read.Err? {
      return Err(read.error);
    }
    var matrix := new Matrix.DFloat(arrays);
    ghost var writes;
    var stats;
    stats, writes := matrix.DescriptiveStatisticsSimd(w);
    var results := BuildResultsHashes(stats, matrix.cols);
    return Ok(results);
  }

  /** `descriptive_statistics_unpacked`: the same, with the scalar engine. */
  method DescriptiveStatisticsUnpacked(arrays: seq<seq<real>>) returns (r: Result<seq<Hash>>)
    requires |arrays| >= 1 && |arrays[0]| >= 1
    ensures r.Ok? <==> Rectangular(arrays)
    ensures r.Err? ==> r.error == TypeError(NilToFloat)
    ensures r.Ok? ==> |r.value| == |arrays| && forall c :: 0 <= c < |arrays| ==>
      r.value[c] == ResultHash(StatsOf(arrays[c][..|arrays[0]|]))
  {
    var read := ConvertCells(arrays);
    if read.Err? {
      return Err(read.error);
    }
    var matrix := new Matrix.DFloat(arrays);
    var stats := matrix.DescriptiveStatistics();
    var results := BuildResultsHashes(stats, matrix.cols);
    return Ok(results);
  }

  /**
   * The C drivers sort each whole inner array and then read its first `rows`
   * elements; the `DFloat` engines read the first `rows` elements and then
   * sort them. When every inner array has exactly `rows` elements, the two
   * give the same records.
   */
  lemma EnginesAgree(arrays: seq<seq<real>>)
    requires RubyArrays.Readable(arrays)
    requires forall c :: 0 <= c < |arrays| ==> |arrays[c]| == |arrays[0]|
    ensures forall c :: 0 <= c < |arrays| ==>
      RubyArrays.LeadingStats(arrays[c], |arrays[0]|) == StatsOf(arrays[c][..|arrays[0]|])
  {
    forall c | 0 <= c < |arrays|
      ensures RubyArrays.LeadingStats(arrays[c], |arrays[0]|) == StatsOf(arrays[c][..|arrays[0]|])
    {
      RubyArrays.LeadingStatsOfFullColumn(arrays[c]);
      assert arrays[c][..|arrays[0]|] == arrays[c];
    }
  }

  /**
   * With an inner array longer than the first the two drivers disagree: when
   * a cell past `rows` is below all of the first `rows` cells, the C driver
   * reports it as the minimum, which the `DFloat` engines never read.
   */
  lemma EnginesDisagreeOnLongerColumn(column: seq<real>, rows: nat)
    requires 1 <= rows < |column|
    requires forall i :: 0 <= i < rows ==> column[rows] < column[i]
    ensures RubyArrays.LeadingStats(column, rows).min <= column[rows] < StatsOf(column[..rows]).min
  {
    var sorted := SortSeq(column);
    assert column[rows] in multiset(column);
    HeadIsLeast(sorted, column[rows]);
    assert sorted[..rows][0] == sorted[0];
    var leading := SortSeq(column[..rows]);
    assert leading[0] in multiset(column[..rows]);
    var i :| 0 <= i < rows && column[..rows][i] == leading[0];
    assert column[i] == leading[0];
  }

  /** A Ruby value that can arrive as an option. `Other` is any other object. */
  datatype Value = Nil | True | False | Sym(name: string) | Other

  /** The element type of a `DFloat`: `float` or `double`. */
  datatype Dtype = Float32 | Float64

  /** The four storage types `initialize` can construct: `DFloat{32,64}{Packed,Unpacked}`. */
  datatype Variant = Variant(dtype: Dtype, packed: bool)

  /** The `dtype` and `packed` values `initialize` works with, after defaults. */
  datatype Options = Options(dtype: Value, packed: Value)

  /** `rb_hash_aref(opts, key)`: nil for a missing key, and no hash at all reads as an empty one. */
  function OptionValue(opts: Option<map<string, Value>>, key: string): Value {
    match opts
    case None => Nil
    case Some(h) => if key in h then h[key] else Nil
  }

  /** `dtype` falls back to `:double` and `packed` to `true` when nil or absent. */
  function ResolveOptions(opts: Option<map<string, Value>>): (o: Options)
    ensures o.dtype == if OptionValue(opts, "dtype") == Nil then Sym("double") else OptionValue(opts, "dtype")
    ensures o.packed == if OptionValue(opts, "packed") == Nil then True else OptionValue(opts, "packed")
  {
    var dtype := OptionValue(opts, "dtype");
    var packed := OptionValue(opts, "packed");
    Options(if dtype == Nil then Sym("double") else dtype, if packed == Nil then True else packed)
  }

  /**
   * Without options, or with an empty hash, a matrix is double precision and
   * packed; a non-nil option is kept as given, and neither option is nil.
   */
  lemma ResolveDefaults(opts: Option<map<string, Value>>)
    ensures ResolveOptions(None) == ResolveOptions(Some(map[])) == Options(Sym("double"), True)
    ensures OptionValue(opts, "dtype") != Nil ==> ResolveOptions(opts).dtype == OptionValue(opts, "dtype")
    ensures OptionValue(opts, "packed") != Nil ==> ResolveOptions(opts).packed == OptionValue(opts, "packed")
    ensures ResolveOptions(opts).dtype != Nil && ResolveOptions(opts).packed != Nil
  {
  }

  /**
   * The checks `initialize` runs before it sets `@dtype` and `@packed`:
   * `Check_Type` on the first inner array (nil when there is none) and on
   * `dtype`, then the boolean check on `packed`.
   */
  function CheckArguments(arrays: seq<seq<real>>, o: Options): (r: Result<()>)
    ensures r.Ok? <==> |arrays| >= 1 && o.dtype.Sym? && IsBoolean(o.packed)
    ensures |arrays| == 0 || !o.dtype.Sym? ==> r == Err(TypeError(WrongArgumentType))
    ensures r.Err? ==> r.error.reason in {WrongArgumentType, PackedNotBoolean}
  {
    if |arrays| == 0 || !o.dtype.Sym? then Err(TypeError(WrongArgumentType))
    else if !IsBoolean(o.packed) then Err(TypeError(PackedNotBoolean))
    else Ok(())
  }

  /** `packed == Qtrue || packed == Qfalse`. */
  predicate IsBoolean(v: Value) {
    v == True || v == False
  }

  /** The storage type the (`dtype`, `packed`) pair names; any other symbol raises. */
  function SelectVariant(o: Options): (r: Result<Variant>)
    ensures r.Ok? <==> KnownDtype(o.dtype)
    ensures r.Err? ==> r.error == TypeError(UnknownDtype)
    ensures r.Ok? ==> (r.value.dtype == Float32 <==> o.dtype == Sym("float"))
    ensures r.Ok? ==> (r.value.packed <==> o.packed == True)
  {
    if o.dtype == Sym("float") then Ok(Variant(Float32, o.packed == True))
    else if o.dtype == Sym("double") then Ok(Variant(Float64, o.packed == True))
    else Err(TypeError(UnknownDtype))
  }

  /**
   * A non-boolean `packed:` always raises; once the arrays and `dtype` have
   * passed their `Check_Type`, it raises the boolean check's error.
   */
  lemma PackedMustBeBoolean(arrays: seq<seq<real>>, o: Options)
    requires !IsBoolean(o.packed)
    ensures CheckArguments(arrays, o).Err?
    ensures |arrays| >= 1 && o.dtype.Sym? ==> CheckArguments(arrays, o) == Err(TypeError(PackedNotBoolean))
  {
  }

  /**
   * Each accepted (`dtype`, `packed`) pair selects exactly one storage type,
   * different pairs select different ones, and every one of the four is
   * selected by some pair; any other symbol raises.
   */
  lemma ExactlyOneVariant(o: Options, o': Options, v: Variant)
    requires IsBoolean(o.packed) && IsBoolean(o'.packed)
    ensures SelectVariant(o).Ok? <==> o.dtype in {Sym("float"), Sym("double")}
    ensures SelectVariant(o).Ok? && SelectVariant(o) == SelectVariant(o') ==> o == o'
    ensures SelectVariant(Options(Sym(if v.dtype == Float32 then "float" else "double"),
                                  if v.packed then True else False)) == Ok(v)
  {
  }

  /** `@dtype` names a storage type `descriptive_statistics` knows. */
  predicate KnownDtype(dtype: Value) {
    dtype == Sym("float") || dtype == Sym("double")
  }

  /** `Array2D`: the instance variables `@dtype`, `@packed` and the wrapped `DFloat`. */
  class Array2D {
    var dtype: Value
    var packed: Value
    /** The `DFloat` constructed in the wrapped memory; null before `initialize` builds one. */
    var storage: Matrix.DFloat?
    /** Which of the four storage types was constructed there. */
    var layout: Option<Variant>

    /** `cArray2D_alloc`: wrapped memory, nothing built, no instance variables yet. */
    constructor ()
      ensures dtype == Nil && packed == Nil && storage == null && layout == None
    {
      dtype, packed, storage, layout := Nil, Nil, null, None;
    }

    /**
     * `cArray2D_initialize(arrays, dtype:, packed:)`. After the argument
     * checks it sets `@dtype` and `@packed`, and only then rejects an unknown
     * dtype; a short inner array raises while the cells are read.
     */
    method Initialize(arrays: seq<seq<real>>, opts: Option<map<string, Value>>) returns (r: Result<()>)
      modifies this
      ensures var o := ResolveOptions(opts);
        CheckArguments(arrays, o).Err? ==>
          r == CheckArguments(arrays, o) && dtype == old(dtype) && packed == old(packed)
      ensures var o := ResolveOptions(opts);
        CheckArguments(arrays, o).Ok? ==> dtype == o.dtype && packed == o.packed
      ensures var o := ResolveOptions(opts);
        CheckArguments(arrays, o).Ok? && SelectVariant(o).Err? ==> r == Err(TypeError(UnknownDtype))
      ensures var o := ResolveOptions(opts);
        CheckArguments(arrays, o).Ok? && SelectVariant(o).Ok? && !Rectangular(arrays) ==>
          r == Err(TypeError(NilToFloat))
      ensures var o := ResolveOptions(opts);
        r.Ok? <==> CheckArguments(arrays, o).Ok? && SelectVariant(o).Ok? && Rectangular(arrays)
      ensures r.Err? ==> storage == old(storage) && layout == old(layout)
      ensures r.Ok? ==> layout == Some(SelectVariant(ResolveOptions(opts)).value)
      ensures r.Ok? ==> (storage != null && fresh(storage) && storage.Valid() &&
        storage.cols == |arrays| && storage.rows == |arrays[0]| &&
        forall j :: 0 <= j < |arrays| ==> storage.Column(j) == arrays[j][..|arrays[0]|])
    {
      var o := ResolveOptions(opts);
      var checked := CheckArguments(arrays, o);
      if checked.Err? {
        return checked;
      }
      dtype := o.dtype;
      packed := o.packed;
      var variant := SelectVariant(o);
      if variant.Err? {
        return Err(variant.error);
      }
      var read := ConvertCells(arrays);
      if read.Err? {
        return Err(read.error);
      }
      storage := new Matrix.DFloat(arrays);
      layout := Some(variant.value);
      return Ok(());
    }

    /**
     * `cArray2D_descriptive_statistics`: with a known `@dtype`, whichever of
     * the four storage types was built runs the scalar engine, even when
     * `@packed` is true; any other `@dtype` raises again here.
     */
    method DescriptiveStatistics() returns (r: Result<seq<Hash>>)
      requires KnownDtype(dtype) ==> storage != null && storage.Valid() && storage.rows >= 1
      modifies if storage == null then {} else {storage, storage.entries}
      ensures r.Ok? <==> KnownDtype(dtype)
      ensures r.Err? ==> r.error == TypeError(UnknownDtype)
      ensures r.Err? && storage != null ==> unchanged(storage, storage.entries)
      ensures r.Ok? ==> (storage != null && storage.stats != null && fresh(storage.stats) &&
        storage.stats.Length == storage.cols &&
        forall c :: 0 <= c < storage.cols ==> storage.stats[c] == StatsOf(old(storage.Column(c))))
      ensures r.Ok? ==> (storage != null && |r.value| == storage.cols &&
        forall c :: 0 <= c < storage.cols ==>
          storage.Column(c) == SortSeq(old(storage.Column(c))) &&
          r.value[c] == ResultHash(StatsOf(old(storage.Column(c)))))
    {
      if !KnownDtype(dtype) {
        return Err(TypeError(UnknownDtype));
      }
      var stats := storage.DescriptiveStatistics();
      var results := BuildResultsHashes(stats, storage.cols);
      return Ok(results);
    }
  }

  /**
   * What `Init_fast_statistics` defines: the module functions, bound exactly
   * as in the C extension's table (to the `DFloat` drivers here), and the
   * `Array2D` methods with their arities (`-1` takes an argument list).
   */
  datatype Extension = Extension(functions: map<string, RubyArrays.Binding>, array2DMethods: map<string, int>)

  function Init(simd: bool): (e: Extension)
    ensures e.functions == RubyArrays.InitBindings(simd)
    ensures e.functions.Keys == RubyArrays.ModuleFunctions
    ensures e.functions["descriptive_statistics"] ==
      if simd then RubyArrays.PackedFloat64 else RubyArrays.Unpacked
    ensures e.functions["simd_enabled?"] == RubyArrays.SimdFlag(simd)
    ensures e.array2DMethods == map["initialize" := -1, "descriptive_statistics" := 0]
  {
    Extension(RubyArrays.InitBindings(simd), map["initialize" := -1, "descriptive_statistics" := 0])
  }
}
