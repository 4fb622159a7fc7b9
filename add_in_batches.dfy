/**
 * The addition-table example: a 12x12 table of sums, one `arithmetic.add` calculation per
 * pair of operands, identified by the extras `left_operand` and `right_operand`.
 */
module AdditionTable {
  import opened Wrappers
  import opened Store

  /** `get_extra_unique_keys`. */
  const UniqueKeys: seq<string> := ["left_operand", "right_operand"]

  /** The plugin type a code must have to run the table. */
  const AddPlugin: string := "core.arithmetic.add"

  /** The table's side: operands run over 1..TableSize. */
  const TableSize: int := 12

  /** `(l, r)` with both operands integers from 1 to 12. */
  predicate InGrid(k: Key) {
    |k| == 2 && k[0].Int? && k[1].Int? && 1 <= k[0].i <= TableSize && 1 <= k[1].i <= TableSize
  }

  /** The key of a cell of the table. */
  function Cell(left: int, right: int): Key {
    [Int(left), Int(right)]
  }

  /** The grid cells already added when the nested loops stand at (`left`, `right`). */
  predicate Before(k: Key, left: int, right: int) {
    InGrid(k) && (k[0].i < left || (k[0].i == left && k[1].i < right))
  }

  /**
   * `get_all_extras_to_submit`: the nested loops over `range(1, 13)` add every pair of
   * operands, giving exactly the 144 cells of the table.
   */
  method AllExtrasToSubmit() returns (allExtras: set<Key>)
    ensures forall k :: k in allExtras <==> InGrid(k)
    ensures |allExtras| == TableSize * TableSize
    ensures forall k :: k in allExtras ==> |k| == |UniqueKeys|
  {
    allExtras := {};
    for leftOperand := 1 to TableSize + 1
      invariant forall k :: k in allExtras <==> Before(k, leftOperand, 1)
      invariant |allExtras| == (leftOperand - 1) * TableSize
    {
      for rightOperand := 1 to TableSize + 1
        invariant forall k :: k in allExtras <==> Before(k, leftOperand, rightOperand)
        invariant |allExtras| == (leftOperand - 1) * TableSize + (rightOperand - 1)
      {
        assert Cell(leftOperand, rightOperand) !in allExtras;
        allExtras := allExtras + {Cell(leftOperand, rightOperand)};
        forall k ensures k in allExtras <==> Before(k, leftOperand, rightOperand + 1) {
          if Before(k, leftOperand, rightOperand + 1) && !Before(k, leftOperand, rightOperand) {
            assert k == Cell(leftOperand, rightOperand);
          }
        }
      }
    }
  }

  /** The inputs of one calculation: the two operands. */
  datatype AddInputs = AddInputs(x: Value, y: Value)

  /** Why a key cannot be materialized: an index out of range. */
  datatype IndexError = IndexError

  /**
   * `get_inputs_and_processclass_from_extras`: `x` is the key's first value and `y` its second;
   * a key with fewer than two values is an index error.
   */
  function InputsFromExtras(extrasValues: Key): (r: Result<AddInputs, IndexError>)
    ensures r.Ok? <==> |extrasValues| >= 2
    ensures r.Ok? ==> r.value.x == extrasValues[0] && r.value.y == extrasValues[1]
  {
    if |extrasValues| < 2 then Err(IndexError)
    else Ok(AddInputs(extrasValues[0], extrasValues[1]))
  }

  /**
   * Each cell of the table is materialized into distinct operands, and the operands are the
   * values the submitted process is tagged with: `x` is its `left_operand`, `y` its
   * `right_operand`.
   */
  lemma InputsMatchTags(k: Key, pk: nat)
    requires InGrid(k)
    ensures InputsFromExtras(k).Ok?
    ensures Extra(Tagged(pk, UniqueKeys, k), "left_operand") == Some(InputsFromExtras(k).value.x)
    ensures Extra(Tagged(pk, UniqueKeys, k), "right_operand") == Some(InputsFromExtras(k).value.y)
  {
    ZipDictAt(UniqueKeys, k, 0);
    ZipDictAt(UniqueKeys, k, 1);
  }

  /** Two cells with the same operands are the same cell: materialization loses nothing. */
  lemma InputsInjective(a: Key, b: Key)
    requires InGrid(a) && InGrid(b)
    ensures InputsFromExtras(a) == InputsFromExtras(b) <==> a == b
  {
    if InputsFromExtras(a) == InputsFromExtras(b) {
      assert a == [a[0], a[1]] && b == [b[0], b[1]];
    }
  }

  /**
   * `_check_code_plugin`: the code label is accepted, unchanged, exactly when the code's
   * default calculation plugin (`pluginType`) is `core.arithmetic.add`.
   */
  function CheckCodePlugin(codeLabel: string, pluginType: string): (r: Result<string, string>)
    ensures r.Ok? <==> pluginType == AddPlugin
    ensures r.Ok? ==> r.value == codeLabel
  {
    if pluginType == AddPlugin then Ok(codeLabel)
    else Err("Code with label `" + codeLabel + "` has incorrect plugin type: `" + pluginType + "`")
  }
}
