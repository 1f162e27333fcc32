/**
 * A sparse matrix indexed by row and column labels (`LabelMatrix`): a map
 * from row label to a map from column label to value. Rows appear on the
 * first write to them and are never removed.
 */
module LabelMatrix {
  import opened Wrappers

  type Matrix<K, V> = map<K, map<K, V>>

  /** Whether the cell (row, col) holds a value. */
  predicate Present<K, V>(m: Matrix<K, V>, row: K, col: K)
  {
    row in m && col in m[row]
  }

  /** `get(row, col, def)`: the stored value, or `def` when the cell is empty. */
  function GetOr<K, V>(m: Matrix<K, V>, row: K, col: K, def: V): (v: V)
    ensures !Present(m, row, col) ==> v == def
    ensures Present(m, row, col) ==> v == m[row][col]
  {
    if row !in m || col !in m[row] then def else m[row][col]
  }

  /** `get(row, col)`: the stored value; an empty cell throws NoSuchElementException. */
  function Get<K, V>(m: Matrix<K, V>, row: K, col: K): (r: Result<V>)
    ensures r.Err? <==> !Present(m, row, col)
    ensures r.Err? ==> r.error == NoSuchElement
    ensures r.Ok? ==> r.value == m[row][col]
  {
    if row !in m || col !in m[row] then Err(NoSuchElement) else Ok(m[row][col])
  }

  /** The value-or-null form of a cell, as `set` reads it before writing. */
  function Lookup<K, V>(m: Matrix<K, V>, row: K, col: K): (r: Option<V>)
    ensures r.None? <==> !Present(m, row, col)
    ensures r.Some? ==> Get(m, row, col) == Ok(r.value)
  {
    if Present(m, row, col) then Some(m[row][col]) else None
  }

  /** `set`: store the value, creating the row on demand, and hand back the previous value. */
  function Set<K, V>(m: Matrix<K, V>, row: K, col: K, value: V): (res: (Matrix<K, V>, Option<V>))
    ensures res.1 == Lookup(m, row, col)
    ensures Get(res.0, row, col) == Ok(value)
  {
    var cols := if row in m then m[row] else map[];
    (m[row := cols[col := value]], Lookup(m, row, col))
  }

  /** Writing one cell leaves every other cell, present or not, as it was. */
  lemma SetLeavesOthers<K, V>(m: Matrix<K, V>, row: K, col: K, value: V, r: K, c: K)
    requires r != row || c != col
    ensures Get(Set(m, row, col, value).0, r, c) == Get(m, r, c)
  {
  }

  /** `get` with a default agrees with `get`, and gives the default exactly when `get` fails. */
  lemma GetOrAgrees<K, V>(m: Matrix<K, V>, row: K, col: K, def: V)
    ensures Get(m, row, col).Ok? ==> GetOr(m, row, col, def) == Get(m, row, col).value
    ensures Get(m, row, col).Err? ==> GetOr(m, row, col, def) == def
  {
  }

  /** `getRow`: the row's column map, or an empty one for a row never written. */
  function GetRow<K(!new), V>(m: Matrix<K, V>, row: K): (cols: map<K, V>)
    ensures forall col :: col in cols <==> Present(m, row, col)
    ensures forall col :: col in cols ==> Get(m, row, col) == Ok(cols[col])
  {
    if row in m then m[row] else map[]
  }
}
