/** The bounded collector of `crates/intlify_authoring_js/src/report.rs`. */
module Reports {
  import opened SpanTree

  /** One thing reported, by what is wrong and where. */
  datatype Record<D> = Record(detail: D, span: Span)

  /** Reaching the budget fails the unit; nothing is ever dropped. */
  class Reporter<D> {
    var records: seq<Record<D>>
    const budget: nat

    predicate Valid()
      reads this
    {
      |records| <= budget
    }

    constructor (budget: nat)
      ensures Valid() && records == [] && this.budget == budget
    {
      records := [];
      this.budget := budget;
    }

    method At(detail: D, span: Span) returns (ok: bool)
      requires Valid()
      modifies this
      ensures Valid() && ok == (|old(records)| < budget)
      ensures records == if ok then old(records) + [Record(detail, span)] else old(records)
    {
      ok := |records| < budget;
      if ok {
        records := records + [Record(detail, span)];
      }
    }
  }
}
