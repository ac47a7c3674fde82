/**
 * The collaborators the form service calls but does not define: the
 * expression helpers (value and condition evaluation, type coercion) and the
 * UUID generator. The helpers are total functions passed in as a parameter,
 * so every property proved here holds whatever they compute; the generator
 * is an oracle that only promises a non-empty identifier it has not issued
 * before.
 */
module External {
  import opened Values

  /**
   * `{value, error}` as returned by the helper: `Err` when `error` is set.
   * The value field is present either way; callers ignore it after an
   * error except where they store it unconditionally.
   */
  datatype Evaluation = Ok(value: Val) | Err(value: Val)

  /** `HelperService.evaluateValue`, `evaluateCondition` and `resolveType`. */
  datatype Helpers = Helpers(
    evaluateValue: (string, Val) -> Evaluation,
    evaluateCondition: (string, Val) -> Evaluation,
    resolveType: (Val, string) -> Val)

  /**
   * `getValue(schema, data, type)`: the schema evaluated as a value
   * expression against the record, coerced to the component's type, or
   * `null` when the evaluation reports an error.
   */
  function GetValue(h: Helpers, schema: string, data: Val, typ: string): (r: Val)
    ensures h.evaluateValue(schema, data).Err? ==> r == Null
    ensures h.evaluateValue(schema, data).Ok? ==> r == h.resolveType(h.evaluateValue(schema, data).value, typ)
  {
    match h.evaluateValue(schema, data)
    case Err(_) => Null
    case Ok(v) => h.resolveType(v, typ)
  }

  /** `UUID.UUID()`: each call yields a non-empty identifier distinct from every one issued or reserved before. */
  class IdSource {
    /** Every identifier issued so far, and those reserved at creation. */
    var issued: set<string>
    var next: nat

    ghost predicate Valid()
      reads this
    {
      next > 0 && forall s :: s in issued ==> |s| < next
    }

    constructor (reserved: set<string>)
      ensures Valid() && issued == reserved
    {
      var rest := reserved;
      var longest: nat := 0;
      while rest != {}
        invariant rest <= reserved
        invariant forall s :: s in reserved && s !in rest ==> |s| <= longest
        decreases |rest|
      {
        var s :| s in rest;
        if |s| > longest {
          longest := |s|;
        }
        rest := rest - {s};
      }
      issued := reserved;
      next := longest + 1;
    }

    method Next() returns (id: string)
      requires Valid()
      modifies this
      ensures Valid()
      ensures id != "" && id !in old(issued)
      ensures issued == old(issued) + {id}
    {
      id := seq(next, _ => 'u');
      issued := issued + {id};
      next := next + 1;
    }
  }
}
