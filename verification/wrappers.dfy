/** Absence and pass/fail values, the shapes of Rust's `Option` and `anyhow::Result<()>`. */
module Wrappers {

  /** `Some(value)` or `None`, as Rust's `Option`. */
  datatype Option<+T> = None | Some(value: T)

  /** `Pass` or `Fail(error)`: a result that carries no value on success. */
  datatype Outcome<+E> = Pass | Fail(error: E)

  /** Map lookup returning an option, as `HashMap::get(..).cloned()`. */
  function Get<K, V>(m: map<K, V>, k: K): (r: Option<V>)
    ensures r.Some? <==> k in m
    ensures r.Some? ==> r.value == m[k]
  {
    if k in m then Some(m[k]) else None
  }
}
