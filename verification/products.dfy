/** The "Work Steps" sheet normaliser: one CSV row per (product, step) pair, with each
    step's "depends on" cell encoded as `code:type,code:type`. */
module Products {
  import opened Wrappers
  import opened Sheets
  import opened Text

  /** A product and the version its steps are attached to. */
  datatype Product = Product(name: string, versionName: string, versionNumber: int, isDefault: string)

  /** Every step of the sheet is emitted once for each of these products, in this order. */
  const PRODUCTS: seq<Product> := [
    Product("Tenjam Blue", "v1.0", 1, "Y"),
    Product("Tenjam White", "v1.0", 1, "Y")
  ]

  /** Sheet rows 1 up to (not including) this index are read; row 0 is the header. */
  const LAST_ROW_EXCLUSIVE: nat := 32

  /** One row of the "Work Steps" sheet, columns 0..8 in order. Missing cells are `None`. */
  datatype StepSheetRow = StepSheetRow(
    dependency: Option<string>,
    dependencyType: Option<string>,
    stepCode: Option<string>,
    externalId: Option<int>,
    category: Option<string>,
    component: Option<string>,
    taskName: Option<string>,
    timeSeconds: Option<int>,
    equipmentCode: Option<string>)

  /** The step columns of an output row. `externalId == None` is written as the empty cell. */
  datatype Step = Step(
    stepCode: string,
    externalId: Option<int>,
    category: string,
    component: string,
    taskName: string,
    timeSeconds: int,
    equipmentCode: string,
    dependencies: string)

  /** One output row: the product columns followed by the step columns. */
  datatype ProductRow = ProductRow(product: Product, step: Step)

  const PRODUCT_COLUMNS: seq<string> := [
    "product_name", "version_name", "version_number", "is_default",
    "step_code", "external_id", "category", "component", "task_name",
    "time_seconds", "equipment_code", "dependencies"
  ]

  /** The suffix appended to every dependency code: `":" + lower(type)` when the type
      cell holds a non-empty string, nothing otherwise. */
  function TypeSuffix(dependencyType: Option<string>): (r: string)
    ensures dependencyType.None? || dependencyType.value == "" ==> r == ""
    ensures dependencyType.Some? && dependencyType.value != "" ==>
      |r| == |dependencyType.value| + 1 && r[0] == ':' && r[1..] == Lower(dependencyType.value)
  {
    if dependencyType.Some? && dependencyType.value != "" then ":" + Lower(dependencyType.value) else ""
  }

  /** The encoded items, one per comma-separated piece of `deps`: the stripped piece
      followed by `suffix`. */
  function DependencyItems(pieces: seq<string>, suffix: string): (r: seq<string>)
    ensures |r| == |pieces|
    ensures forall k :: 0 <= k < |pieces| ==> r[k] == Strip(pieces[k]) + suffix
  {
    if pieces == [] then [] else DependencyItems(pieces[..|pieces| - 1], suffix) + [Strip(pieces[|pieces| - 1]) + suffix]
  }

  /** `transform_dependencies(deps, dep_type)`. */
  function TransformDependencies(deps: Option<string>, dependencyType: Option<string>): (r: string)
    ensures deps.None? || deps.value == "" ==> r == ""
  {
    if deps.None? || deps.value == "" then ""
    else Join(DependencyItems(Split(deps.value, ','), TypeSuffix(dependencyType)), ",")
  }

  /** Two comma-separated pieces give two items joined by one comma. */
  lemma TransformTwoPieces(deps: string, dependencyType: Option<string>, a: string, b: string)
    requires deps != "" && Split(deps, ',') == [a, b]
    ensures TransformDependencies(Some(deps), dependencyType)
      == (Strip(a) + TypeSuffix(dependencyType)) + "," + (Strip(b) + TypeSuffix(dependencyType))
  {
    var suffix := TypeSuffix(dependencyType);
    var items := DependencyItems(Split(deps, ','), suffix);
    var x, y := Strip(a) + suffix, Strip(b) + suffix;
    assert items == [x, y] by {
      ItemsOfTwo(a, b, suffix);
    }
    assert Join(items, ",") == x + "," + y by {
      JoinTwo(x, y, ",");
    }
    assert TransformDependencies(Some(deps), dependencyType) == Join(items, ",");
  }

  lemma ItemsOfTwo(a: string, b: string, suffix: string)
    ensures DependencyItems([a, b], suffix) == [Strip(a) + suffix, Strip(b) + suffix]
  {
    var items := DependencyItems([a, b], suffix);
    assert |items| == 2;
  }

  /** The example of the function's documentation: `"CFA1, CTA1"` with type `"FINISH"`. */
  lemma TransformExample(deps: string, dependencyType: string)
    requires deps == "CFA1, CTA1" && dependencyType == "FINISH"
    ensures TransformDependencies(Some(deps), Some(dependencyType)) == "CFA1:finish,CTA1:finish"
  {
    ExamplePieces(deps, dependencyType, deps[..4], deps[5..]);
  }

  /** The example, with its two comma-separated pieces `a` and `b` named. */
  lemma ExamplePieces(deps: string, dependencyType: string, a: string, b: string)
    requires deps == "CFA1, CTA1" && dependencyType == "FINISH" && a == "CFA1" && b == " CTA1"
    ensures TransformDependencies(Some(deps), Some(dependencyType)) == "CFA1:finish,CTA1:finish"
  {
    ExampleSplit(deps, a, b);
    TransformTwoPieces(deps, Some(dependencyType), a, b);
    ExampleStrip(a, b);
    ExampleSuffix(dependencyType);
    ExampleJoin(TransformDependencies(Some(deps), Some(dependencyType)), Strip(a), Strip(b), TypeSuffix(Some(dependencyType)));
  }

  lemma ExampleJoin(x: string, sa: string, sb: string, suffix: string)
    requires x == (sa + suffix) + "," + (sb + suffix)
    requires sa == "CFA1" && sb == "CTA1" && suffix == ":finish"
    ensures x == "CFA1:finish,CTA1:finish"
  {
  }

  lemma ExampleSplit(deps: string, a: string, b: string)
    requires deps == "CFA1, CTA1" && a == "CFA1" && b == " CTA1"
    ensures Split(deps, ',') == [a, b]
  {
    assert ',' !in a && ',' !in b;
    SplitPlain(b, ',');
    SplitPrefix(a, b, ',');
    assert deps == a + [','] + b;
  }

  lemma ExampleStrip(a: string, b: string)
    requires a == "CFA1" && b == " CTA1"
    ensures Strip(a) == "CFA1" && Strip(b) == "CTA1"
  {
    assert !IsSpace(a[0]) && !IsSpace(a[|a| - 1]);
    StripTrimmed(a);
    assert b == [' '] + "CTA1";
    StripSpaceThenWord(b, "CTA1");
  }

  lemma StripSpaceThenWord(b: string, w: string)
    requires b == [' '] + w && w != [] && !IsSpace(w[0]) && !IsSpace(w[|w| - 1])
    ensures Strip(b) == w
  {
    StripLeadingSpace(b);
    assert b[1..] == w;
    StripTrimmed(w);
  }

  lemma ExampleSuffix(dependencyType: string)
    requires dependencyType == "FINISH"
    ensures TypeSuffix(Some(dependencyType)) == ":finish"
  {
    assert Lower(dependencyType) == "finish";
  }

  /** Decoding the encoding: splitting the output on commas gives back exactly one item
      per comma-separated piece of the input, in order, each the stripped piece followed
      by the shared type suffix. No piece is dropped, empty ones included; with no type
      the items carry no suffix. (A type containing a comma would break this.) */
  lemma {:induction false} TransformDecodes(deps: string, dependencyType: Option<string>)
    requires deps != ""
    requires ',' !in TypeSuffix(dependencyType)
    ensures var pieces := Split(deps, ',');
      var items := Split(TransformDependencies(Some(deps), dependencyType), ',');
      && |items| == |pieces|
      && forall k :: 0 <= k < |pieces| ==> items[k] == Strip(pieces[k]) + TypeSuffix(dependencyType)
  {
    var pieces := Split(deps, ',');
    var suffix := TypeSuffix(dependencyType);
    var items := DependencyItems(pieces, suffix);
    forall k | 0 <= k < |items| ensures ',' !in items[k] {
      StripInfix(pieces[k]);
    }
    SplitJoin(items, ',');
  }

  /** Stripping does not introduce characters: every character of `Strip(s)` is in `s`. */
  lemma StripInfix(s: string)
    ensures forall c :: c in Strip(s) ==> c in s
  {
    var i := StripStart(s);
    forall c | c in Strip(s) ensures c in s {
      var m :| 0 <= m < |Strip(s)| && Strip(s)[m] == c;
      assert s[i + m] == c;
    }
  }

  /** The step columns of a sheet row, or `None` when its step_code cell is missing
      (the row is skipped). Missing optional cells default to `""`, and a missing
      time to 0. */
  function StepOf(row: StepSheetRow): (r: Option<Step>)
    ensures r.None? <==> row.stepCode.None?
    ensures r.Some? ==>
      && r.value.stepCode == row.stepCode.value
      && r.value.externalId == row.externalId
      && r.value.category == row.category.GetOr("")
      && r.value.component == row.component.GetOr("")
      && r.value.taskName == row.taskName.GetOr("")
      && r.value.timeSeconds == row.timeSeconds.GetOr(0)
      && r.value.equipmentCode == row.equipmentCode.GetOr("")
      && r.value.dependencies == TransformDependencies(row.dependency, row.dependencyType)
  {
    match row.stepCode
    case None => None
    case Some(code) =>
      Some(Step(code, row.externalId, row.category.GetOr(""), row.component.GetOr(""),
                row.taskName.GetOr(""), row.timeSeconds.GetOr(0), row.equipmentCode.GetOr(""),
                TransformDependencies(row.dependency, row.dependencyType)))
  }

  /** The steps of the examined rows, skipping rows without a step code, in sheet order. */
  function Steps(rows: seq<StepSheetRow>): seq<Step> {
    if rows == [] then []
    else
      var last := rows[|rows| - 1];
      Steps(rows[..|rows| - 1]) + (match StepOf(last) case None => [] case Some(s) => [s])
  }

  /** Appending one sheet row appends its step, if it has one. */
  lemma StepsSnoc(rows: seq<StepSheetRow>, row: StepSheetRow)
    ensures Steps(rows + [row]) == Steps(rows) + (match StepOf(row) case None => [] case Some(s) => [s])
  {
    assert (rows + [row])[..|rows|] == rows;
  }

  /** Examining one more sheet row appends its step, if it has one. */
  lemma StepsExtend(sheet: seq<StepSheetRow>, idx: nat)
    requires 1 <= idx < |sheet|
    ensures Steps(sheet[1..idx + 1]) == Steps(sheet[1..idx]) + (match StepOf(sheet[idx]) case None => [] case Some(s) => [s])
  {
    assert sheet[1..idx + 1] == sheet[1..idx] + [sheet[idx]];
    StepsSnoc(sheet[1..idx], sheet[idx]);
  }

  /** Steps of two consecutive row ranges are the steps of the first followed by those of the second. */
  lemma {:induction false} StepsAppend(a: seq<StepSheetRow>, b: seq<StepSheetRow>)
    ensures Steps(a + b) == Steps(a) + Steps(b)
  {
    if b != [] {
      StepsAppend(a, b[..|b| - 1]);
      assert (a + b)[..|a + b| - 1] == a + b[..|b| - 1];
    } else {
      assert a + b == a;
    }
  }

  /** The number of rows among `rows` whose step code is present. */
  function CodeCount(rows: seq<StepSheetRow>): (n: nat)
    ensures n <= |rows|
  {
    if rows == [] then 0
    else CodeCount(rows[..|rows| - 1]) + (if rows[|rows| - 1].stepCode.Some? then 1 else 0)
  }

  /** Exactly the rows with a step code contribute a step: one step per such row, each
      step from such a row, and each such row's step present. */
  lemma StepsSkipOnlyMissingCodes(rows: seq<StepSheetRow>)
    ensures |Steps(rows)| == CodeCount(rows)
    ensures |Steps(rows)| <= |rows|
    ensures forall s :: s in Steps(rows) ==> exists r :: r in rows && StepOf(r) == Some(s)
    ensures forall r :: r in rows && r.stepCode.Some? ==> StepOf(r).value in Steps(rows)
  {
    StepsCount(rows);
    StepsProvenance(rows);
    StepsComplete(rows);
  }

  lemma {:induction false} StepsProvenance(rows: seq<StepSheetRow>)
    ensures forall s :: s in Steps(rows) ==> exists r :: r in rows && StepOf(r) == Some(s)
  {
    if rows != [] {
      var init := rows[..|rows| - 1];
      StepsProvenance(init);
      assert forall r :: r in init ==> r in rows;
    }
  }

  lemma {:induction false} StepsComplete(rows: seq<StepSheetRow>)
    ensures forall r :: r in rows && r.stepCode.Some? ==> StepOf(r).value in Steps(rows)
  {
    if rows != [] {
      var init := rows[..|rows| - 1];
      StepsComplete(init);
      assert rows == init + [rows[|rows| - 1]];
    }
  }

  lemma {:induction false} StepsCount(rows: seq<StepSheetRow>)
    ensures |Steps(rows)| == CodeCount(rows)
  {
    if rows != [] {
      StepsCount(rows[..|rows| - 1]);
    }
  }

  /** One product's block: one row per step, all carrying that product. */
  function Block(p: Product, steps: seq<Step>): (r: seq<ProductRow>)
    ensures |r| == |steps|
    ensures forall k :: 0 <= k < |steps| ==> r[k] == ProductRow(p, steps[k])
  {
    if steps == [] then [] else Block(p, steps[..|steps| - 1]) + [ProductRow(p, steps[|steps| - 1])]
  }

  lemma BlockSnoc(p: Product, steps: seq<Step>, s: Step)
    ensures Block(p, steps + [s]) == Block(p, steps) + [ProductRow(p, s)]
  {
    assert (steps + [s])[..|steps|] == steps;
  }

  /** The products' blocks, product after product. */
  function Blocks(ps: seq<Product>, steps: seq<Step>): seq<ProductRow> {
    if ps == [] then [] else Blocks(ps[..|ps| - 1], steps) + Block(ps[|ps| - 1], steps)
  }

  /** The whole output: rows 1..31 of the sheet, every step once per product. */
  function ProductTable(sheet: seq<StepSheetRow>): seq<ProductRow>
    requires |sheet| >= LAST_ROW_EXCLUSIVE
  {
    Blocks(PRODUCTS, Steps(sheet[1..LAST_ROW_EXCLUSIVE]))
  }

  /** There are `|ps| * |steps|` rows: one block of `|steps|` rows per product. */
  lemma {:induction false} BlocksLength(ps: seq<Product>, steps: seq<Step>)
    ensures |Blocks(ps, steps)| == |ps| * |steps|
  {
    if ps != [] {
      BlocksLength(ps[..|ps| - 1], steps);
      assert (|ps| - 1) * |steps| + |steps| == |ps| * |steps|;
    }
  }

  /** Taking one more product appends its block. */
  lemma BlocksExtend(ps: seq<Product>, steps: seq<Step>, j: nat)
    requires j < |ps|
    ensures Blocks(ps[..j + 1], steps) == Blocks(ps[..j], steps) + Block(ps[j], steps)
  {
    assert ps[..j + 1][..j] == ps[..j];
  }

  /** The blocks of the first `j` products come first, in product order. */
  lemma {:induction false} BlocksPrefix(ps: seq<Product>, steps: seq<Step>, j: nat)
    requires j <= |ps|
    ensures |Blocks(ps[..j], steps)| <= |Blocks(ps, steps)|
    ensures Blocks(ps, steps)[..|Blocks(ps[..j], steps)|] == Blocks(ps[..j], steps)
    decreases |ps| - j
  {
    if j == |ps| {
      assert ps[..j] == ps;
    } else {
      var init := ps[..|ps| - 1];
      assert init[..j] == ps[..j];
      BlocksPrefix(init, steps, j);
    }
  }

  /** The output is product-major: row `i * |steps| + k` is step `k` of product `i`, so
      each block holds the same steps in sheet order and differs only in the product columns. */
  lemma BlocksLayout(ps: seq<Product>, steps: seq<Step>, i: nat, k: nat)
    requires i < |ps| && k < |steps|
    ensures i * |steps| + k < |Blocks(ps, steps)|
    ensures Blocks(ps, steps)[i * |steps| + k] == ProductRow(ps[i], steps[k])
  {
    var front := Blocks(ps[..i], steps);
    BlocksLength(ps[..i], steps);
    assert |front| == i * |steps|;
    assert ps[..i + 1][..i] == ps[..i];
    assert Blocks(ps[..i + 1], steps) == front + Block(ps[i], steps);
    BlocksPrefix(ps, steps, i + 1);
    assert Blocks(ps, steps)[|front| + k] == Blocks(ps[..i + 1], steps)[|front| + k];
  }

  /** The table built from the sheet is the block of the examined steps for
      "Tenjam Blue" followed by the same block for "Tenjam White". */
  lemma ProductTableShape(sheet: seq<StepSheetRow>)
    requires |sheet| >= LAST_ROW_EXCLUSIVE
    ensures var steps := Steps(sheet[1..LAST_ROW_EXCLUSIVE]);
      ProductTable(sheet) == Block(PRODUCTS[0], steps) + Block(PRODUCTS[1], steps)
  {
    var steps := Steps(sheet[1..LAST_ROW_EXCLUSIVE]);
    assert PRODUCTS[..1][..0] == [];
    assert Blocks(PRODUCTS[..1], steps) == Block(PRODUCTS[0], steps);
    assert PRODUCTS[..|PRODUCTS| - 1] == PRODUCTS[..1];
  }

  /** The output has one row per product for every examined row with a step code. */
  lemma ProductTableLength(sheet: seq<StepSheetRow>)
    requires |sheet| >= LAST_ROW_EXCLUSIVE
    ensures |ProductTable(sheet)| == |PRODUCTS| * CodeCount(sheet[1..LAST_ROW_EXCLUSIVE])
  {
    var rows := sheet[1..LAST_ROW_EXCLUSIVE];
    StepsSkipOnlyMissingCodes(rows);
    BlocksLength(PRODUCTS, Steps(rows));
  }

  /** The CSV cells of an output row, in the order of `PRODUCT_COLUMNS`. */
  function Cells(row: ProductRow): (r: seq<Value>)
    ensures |r| == |PRODUCT_COLUMNS|
  {
    [Text(row.product.name), Text(row.product.versionName), Number(row.product.versionNumber),
     Text(row.product.isDefault), Text(row.step.stepCode),
     (match row.step.externalId case Some(n) => Number(n) case None => Text("")),
     Text(row.step.category), Text(row.step.component), Text(row.step.taskName),
     Number(row.step.timeSeconds), Text(row.step.equipmentCode), Text(row.step.dependencies)]
  }

  /** One pass of `main`'s inner loop: the rows of `product` for sheet rows 1..31,
      skipping rows without a step code. */
  method ProductPass(product: Product, sheet: seq<StepSheetRow>) returns (block: seq<ProductRow>)
    requires |sheet| >= LAST_ROW_EXCLUSIVE
    ensures block == Block(product, Steps(sheet[1..LAST_ROW_EXCLUSIVE]))
  {
    block := [];
    var idx := 1;
    while idx < LAST_ROW_EXCLUSIVE
      invariant 1 <= idx <= LAST_ROW_EXCLUSIVE
      invariant block == Block(product, Steps(sheet[1..idx]))
    {
      var row := sheet[idx];
      StepsExtend(sheet, idx);
      if row.stepCode.None? {
        idx := idx + 1;
        continue;
      }
      var dependencies := TransformDependencies(row.dependency, row.dependencyType);
      var step := Step(
        row.stepCode.value, row.externalId, row.category.GetOr(""), row.component.GetOr(""),
        row.taskName.GetOr(""), row.timeSeconds.GetOr(0), row.equipmentCode.GetOr(""),
        dependencies);
      assert StepOf(row) == Some(step);
      BlockSnoc(product, Steps(sheet[1..idx]), step);
      block := block + [ProductRow(product, step)];
      idx := idx + 1;
    }
  }

  /** `main`: for each product in order, its pass over the sheet. A sheet with fewer
      than 32 rows stops the script at the first missing row index, before anything is
      written. */
  method ConvertProducts(sheet: seq<StepSheetRow>) returns (r: Result<seq<ProductRow>, SheetError>)
    ensures |sheet| < LAST_ROW_EXCLUSIVE ==> r == Failure(RowMissing(if |sheet| == 0 then 1 else |sheet|))
    ensures |sheet| >= LAST_ROW_EXCLUSIVE ==> r == Success(ProductTable(sheet))
  {
    if |sheet| < LAST_ROW_EXCLUSIVE {
      return Failure(RowMissing(if |sheet| == 0 then 1 else |sheet|));
    }
    var productRows: seq<ProductRow> := [];
    var pi := 0;
    while pi < |PRODUCTS|
      invariant 0 <= pi <= |PRODUCTS|
      invariant productRows == Blocks(PRODUCTS[..pi], Steps(sheet[1..LAST_ROW_EXCLUSIVE]))
    {
      var block := ProductPass(PRODUCTS[pi], sheet);
      BlocksExtend(PRODUCTS, Steps(sheet[1..LAST_ROW_EXCLUSIVE]), pi);
      productRows := productRows + block;
      pi := pi + 1;
    }
    assert PRODUCTS[..pi] == PRODUCTS;
    return Success(productRows);
  }
}
