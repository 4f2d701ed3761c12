/** Column descriptions attached to the written tables
    (`load_data_dictionary` and `write_parquet_with_metadata` in
    04_parse_data.py). */
module Metadata {
  import opened Wrappers

  /** A field of a written table's schema and the `description` entry of
      its metadata, if any. */
  datatype Field = Field(name: string, description: Option<string>)

  /** Variable name to short description (`ItemName`, possibly missing). */
  type Descriptions = map<string, Option<string>>

  /** `dict(zip(df['Variable'], df['ItemName']))`. */
  function DictOf(pairs: seq<(string, Option<string>)>): (d: Descriptions)
    ensures forall v :: v in d <==> exists i :: 0 <= i < |pairs| && pairs[i].0 == v
  {
    if pairs == [] then map[]
    else
      var init := DictOf(pairs[..|pairs| - 1]);
      var last := pairs[|pairs| - 1];
      assert forall i :: 0 <= i < |pairs| - 1 ==> pairs[..|pairs| - 1][i] == pairs[i];
      init[last.0 := last.1]
  }

  /** A later pair for the same variable overrides an earlier one: the
      dictionary holds the description of the last pair for each name. */
  lemma {:induction false} DictOfLastWins(pairs: seq<(string, Option<string>)>, i: nat)
    requires i < |pairs|
    requires forall j :: i < j < |pairs| ==> pairs[j].0 != pairs[i].0
    ensures pairs[i].0 in DictOf(pairs) && DictOf(pairs)[pairs[i].0] == pairs[i].1
  {
    if i < |pairs| - 1 {
      var init := pairs[..|pairs| - 1];
      assert forall j :: i < j < |init| ==> init[j] == pairs[j];
      DictOfLastWins(init, i);
    }
  }

  /** The dictionary file as the parser finds it. */
  datatype DictionaryFile =
    | Missing
    | Unreadable
    | Readable(pairs: seq<(string, Option<string>)>)

  /** What a fresh load of the file yields: `{}` unless it can be read. */
  function DescriptionsOf(file: DictionaryFile): Descriptions {
    match file
    case Readable(pairs) => DictOf(pairs)
    case _ => map[]
  }

  /** The module-level `_DATA_DICTIONARY` / `_DICTIONARY_PATH` pair. */
  class DictionaryCache {
    var cached: Option<Descriptions>
    var cachedPath: Option<string>

    /** The state of a freshly started interpreter. */
    constructor()
      ensures cached == None && cachedPath == None
    {
      cached := None;
      cachedPath := None;
    }

    /** The cache holds what the file at `path` reads as, if it holds
        anything for that path. */
    predicate ConsistentWith(path: string, file: DictionaryFile)
      reads this
    {
      cached.Some? && cachedPath == Some(path) ==> file.Readable? && cached.value == DescriptionsOf(file)
    }

    /** `load_data_dictionary`: a hit returns the cached dictionary; a
        missing or unreadable file gives `{}` and leaves the cache alone;
        otherwise the file is read, cached and returned. */
    method Load(path: string, file: DictionaryFile) returns (d: Descriptions)
      modifies this
      ensures old(cached).Some? && old(cachedPath) == Some(path) ==>
                d == old(cached).value && cached == old(cached) && cachedPath == old(cachedPath)
      ensures !(old(cached).Some? && old(cachedPath) == Some(path)) && file.Readable? ==>
                d == DictOf(file.pairs) && cached == Some(d) && cachedPath == Some(path)
      ensures !(old(cached).Some? && old(cachedPath) == Some(path)) && !file.Readable? ==>
                d == map[] && cached == old(cached) && cachedPath == old(cachedPath)
      ensures old(ConsistentWith(path, file)) ==> d == DescriptionsOf(file) && ConsistentWith(path, file)
    {
      if cached.Some? && cachedPath == Some(path) {
        return cached.value;
      }
      match file
      case Readable(pairs) =>
        d := DictOf(pairs);
        cached := Some(d);
        cachedPath := Some(path);
      case _ =>
        d := map[];
    }
  }

  /** The fields `pa.Table.from_pandas` gives the columns: no metadata. */
  function FieldsOf(columns: seq<string>): (fields: seq<Field>)
    ensures |fields| == |columns|
    ensures forall k :: 0 <= k < |columns| ==> fields[k] == Field(columns[k], None)
  {
    seq(|columns|, k requires 0 <= k < |columns| => Field(columns[k], None))
  }

  /** Every field the dictionary names has a description: encoding a
      missing one (`None.encode`) raises. */
  predicate Describable(fields: seq<Field>, d: Descriptions) {
    forall k :: 0 <= k < |fields| && fields[k].name in d ==> d[fields[k].name].Some?
  }

  /** The schema after the annotation loop: a field the dictionary names
      carries its description as its metadata, any other field is kept as
      it was; a missing description makes the write fail, naming the
      column. */
  function AnnotatedSchema(fields: seq<Field>, d: Descriptions): (r: Result<seq<Field>, string>)
    ensures r.Success? <==> Describable(fields, d)
    ensures r.Success? ==> |r.value| == |fields|
    ensures r.Success? ==> forall k :: 0 <= k < |fields| ==>
              && r.value[k].name == fields[k].name
              && (fields[k].name in d ==> r.value[k].description == d[fields[k].name])
              && (fields[k].name !in d ==> r.value[k] == fields[k])
    ensures r.Failure? ==> exists k :: 0 <= k < |fields| && fields[k].name == r.error && r.error in d && d[r.error].None?
  {
    if fields == [] then Success([])
    else
      var f := fields[0];
      if f.name in d && d[f.name].None? then Failure(f.name)
      else
        var head := if f.name in d then Field(f.name, d[f.name]) else f;
        match AnnotatedSchema(fields[1..], d)
        case Failure(c) => Failure(c)
        case Success(rest) => Success([head] + rest)
  }

  /** The `for field in table.schema` loop of `write_parquet_with_metadata`,
      entered only when the dictionary is not empty. */
  method AnnotateSchema(fields: seq<Field>, d: Descriptions) returns (r: Result<seq<Field>, string>)
    ensures r == AnnotatedSchema(fields, d)
  {
    if d == map[] {
      EmptyDictionaryChangesNothing(fields);
      return Success(fields);
    }
    var done: seq<Field> := [];
    var i := 0;
    assert fields[0..] == fields;
    assert AnnotatedSchema(fields, d).Success? ==> [] + AnnotatedSchema(fields, d).value == AnnotatedSchema(fields, d).value;
    while i < |fields|
      invariant 0 <= i <= |fields|
      invariant AnnotatedSchema(fields, d) == Prepend(done, AnnotatedSchema(fields[i..], d))
    {
      var f := fields[i];
      AnnotatedStep(fields, i, d);
      if f.name in d {
        match d[f.name]
        case None =>
          return Failure(f.name);
        case Some(text) =>
          PrependAppend(done, Field(f.name, Some(text)), AnnotatedSchema(fields[i + 1..], d));
          done := done + [Field(f.name, Some(text))];
      } else {
        PrependAppend(done, f, AnnotatedSchema(fields[i + 1..], d));
        done := done + [f];
      }
      i := i + 1;
    }
    PrependNothing(fields, done, d);
    return Success(done);
  }

  lemma AnnotatedStep(fields: seq<Field>, i: nat, d: Descriptions)
    requires i < |fields|
    ensures var f := fields[i];
            AnnotatedSchema(fields[i..], d) ==
              if f.name in d && d[f.name].None? then Failure(f.name)
              else Prepend([if f.name in d then Field(f.name, d[f.name]) else f], AnnotatedSchema(fields[i + 1..], d))
  {
    assert fields[i..][1..] == fields[i + 1..];
  }

  /** Fields already annotated in front of the outcome of the rest. */
  function Prepend(done: seq<Field>, rest: Result<seq<Field>, string>): Result<seq<Field>, string> {
    match rest
    case Failure(c) => Failure(c)
    case Success(fs) => Success(done + fs)
  }

  lemma PrependNothing(fields: seq<Field>, done: seq<Field>, d: Descriptions)
    ensures Prepend(done, AnnotatedSchema(fields[|fields|..], d)) == Success(done)
  {
    assert fields[|fields|..] == [];
    assert done + [] == done;
  }

  lemma PrependAppend(done: seq<Field>, f: Field, rest: Result<seq<Field>, string>)
    ensures Prepend(done, Prepend([f], rest)) == Prepend(done + [f], rest)
  {
    if rest.Success? {
      assert done + ([f] + rest.value) == done + [f] + rest.value;
    }
  }

  /** An empty dictionary leaves the schema as it is. */
  lemma {:induction false} EmptyDictionaryChangesNothing(fields: seq<Field>)
    ensures AnnotatedSchema(fields, map[]) == Success(fields)
  {
    if fields != [] {
      EmptyDictionaryChangesNothing(fields[1..]);
      assert fields == [fields[0]] + fields[1..];
    }
  }

  /** Annotating an annotated schema again changes nothing. */
  lemma {:induction false} AnnotateIdempotent(fields: seq<Field>, d: Descriptions)
    requires AnnotatedSchema(fields, d).Success?
    ensures AnnotatedSchema(AnnotatedSchema(fields, d).value, d) == AnnotatedSchema(fields, d)
  {
    if fields != [] {
      AnnotateIdempotent(fields[1..], d);
    }
  }
}
