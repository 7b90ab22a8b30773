/**
 * The auditor dashboard's audit list filter: three optional equality filters, on status,
 * target department and audit category, each switched off by the value "All" and applied
 * one after another as list comprehensions.
 */
module AuditFilter {

  /** The audit record fields the filter reads (the others are carried along unchanged). */
  datatype Audit = Audit(id: int, title: string, status: string, targetDepartment: string, auditCategory: string)

  datatype Field = Status | TargetDepartment | AuditCategory

  const All := "All"

  function FieldOf(a: Audit, f: Field): string {
    match f
    case Status => a.status
    case TargetDepartment => a.targetDepartment
    case AuditCategory => a.auditCategory
  }

  /** `[a for a in audits if p(a)]`. */
  function Where(audits: seq<Audit>, p: Audit -> bool): (r: seq<Audit>)
    ensures |r| <= |audits|
    ensures forall a :: a in r <==> a in audits && p(a)
  {
    if audits == [] then []
    else (if p(audits[0]) then [audits[0]] else []) + Where(audits[1..], p)
  }

  /** One step of `_filter_audits`: the comprehension runs only when the filter is not "All". */
  function Restrict(audits: seq<Audit>, f: Field, value: string): seq<Audit> {
    if value == All then audits else Where(audits, a => FieldOf(a, f) == value)
  }

  /** `_filter_audits`: status, then department, then category. */
  function FilterAudits(audits: seq<Audit>, statusFilter: string, departmentFilter: string, categoryFilter: string)
    : seq<Audit>
  {
    var byStatus := Restrict(audits, Status, statusFilter);
    var byDepartment := Restrict(byStatus, TargetDepartment, departmentFilter);
    Restrict(byDepartment, AuditCategory, categoryFilter)
  }

  /** A record passes a filter that is "All" or equals the record's field. */
  predicate Passes(a: Audit, f: Field, value: string) {
    value == All || FieldOf(a, f) == value
  }

  /** The three filters as one conjunction, for a single pass over the list. */
  predicate MatchesAll(a: Audit, statusFilter: string, departmentFilter: string, categoryFilter: string) {
    Passes(a, Status, statusFilter) && Passes(a, TargetDepartment, departmentFilter) && Passes(a, AuditCategory, categoryFilter)
  }

  /** `r` is `s` with some records left out and the rest in their original order. */
  predicate IsSubsequence(r: seq<Audit>, s: seq<Audit>)
    decreases |s|
  {
    if r == [] then true
    else if s == [] then false
    else if r[0] == s[0] then IsSubsequence(r[1..], s[1..])
    else IsSubsequence(r, s[1..])
  }

  lemma {:induction false} WhereIsSubsequence(audits: seq<Audit>, p: Audit -> bool)
    ensures IsSubsequence(Where(audits, p), audits)
    decreases |audits|
  {
    if audits != [] {
      WhereIsSubsequence(audits[1..], p);
      var rest := Where(audits[1..], p);
      if p(audits[0]) {
        assert Where(audits, p) == [audits[0]] + rest;
        assert ([audits[0]] + rest)[1..] == rest;
      } else {
        assert Where(audits, p) == rest;
        SubsequenceOfTail(rest, audits);
      }
    }
  }

  /** A subsequence of the tail is a subsequence of the whole list. */
  lemma {:induction false} SubsequenceOfTail(r: seq<Audit>, s: seq<Audit>)
    requires s != [] && IsSubsequence(r, s[1..])
    ensures IsSubsequence(r, s)
    decreases |r| + |s|, 1
  {
    if r != [] && r[0] == s[0] {
      DropFirst(r, s[1..]);
    }
  }

  /** Dropping the first element of a subsequence keeps it a subsequence. */
  lemma {:induction false} DropFirst(r: seq<Audit>, t: seq<Audit>)
    requires r != [] && IsSubsequence(r, t)
    ensures IsSubsequence(r[1..], t)
    decreases |r| + |t| + 1, 0
  {
    if r[0] == t[0] {
      SubsequenceOfTail(r[1..], t);
    } else {
      DropFirst(r, t[1..]);
      SubsequenceOfTail(r[1..], t);
    }
  }

  /** Filtering twice is filtering once by both conditions. */
  lemma {:induction false} WhereWhere(audits: seq<Audit>, p: Audit -> bool, q: Audit -> bool, pq: Audit -> bool)
    requires forall a :: pq(a) == (p(a) && q(a))
    ensures Where(Where(audits, p), q) == Where(audits, pq)
    decreases |audits|
  {
    if audits != [] {
      WhereWhere(audits[1..], p, q, pq);
      var head := audits[0];
      var inner := Where(audits[1..], p);
      if p(head) {
        assert Where(audits, p) == [head] + inner;
        assert ([head] + inner)[1..] == inner;
      } else {
        assert Where(audits, p) == inner;
      }
    }
  }

  /** Filters whose conditions agree on every record select the same records. */
  lemma {:induction false} WhereCongruent(audits: seq<Audit>, p: Audit -> bool, q: Audit -> bool)
    requires forall a :: p(a) == q(a)
    ensures Where(audits, p) == Where(audits, q)
    decreases |audits|
  {
    if audits != [] {
      WhereCongruent(audits[1..], p, q);
    }
  }

  /** A step of the filter keeps exactly the records that pass it. */
  lemma RestrictIsWhere(audits: seq<Audit>, f: Field, value: string)
    ensures Restrict(audits, f, value) == Where(audits, a => Passes(a, f, value))
  {
    if value == All {
      WhereAllTrue(audits, a => Passes(a, f, value));
    } else {
      WhereCongruent(audits, a => FieldOf(a, f) == value, a => Passes(a, f, value));
    }
  }

  lemma {:induction false} WhereAllTrue(audits: seq<Audit>, p: Audit -> bool)
    requires forall a :: p(a)
    ensures Where(audits, p) == audits
    decreases |audits|
  {
    if audits != [] {
      WhereAllTrue(audits[1..], p);
      assert [audits[0]] + audits[1..] == audits;
    }
  }

  /**
   * The three successive comprehensions select the same list, in the same order, as one
   * pass keeping the records that pass every filter.
   */
  lemma FilterIsSinglePass(audits: seq<Audit>, statusFilter: string, departmentFilter: string, categoryFilter: string)
    ensures FilterAudits(audits, statusFilter, departmentFilter, categoryFilter)
            == Where(audits, a => MatchesAll(a, statusFilter, departmentFilter, categoryFilter))
  {
    var ps := a => Passes(a, Status, statusFilter);
    var pd := a => Passes(a, TargetDepartment, departmentFilter);
    var pc := a => Passes(a, AuditCategory, categoryFilter);
    var psd := a => Passes(a, Status, statusFilter) && Passes(a, TargetDepartment, departmentFilter);
    var byStatus := Restrict(audits, Status, statusFilter);
    var byDepartment := Restrict(byStatus, TargetDepartment, departmentFilter);
    RestrictIsWhere(audits, Status, statusFilter);
    RestrictIsWhere(byStatus, TargetDepartment, departmentFilter);
    RestrictIsWhere(byDepartment, AuditCategory, categoryFilter);
    WhereWhere(audits, ps, pd, psd);
    WhereWhere(audits, psd, pc, a => MatchesAll(a, statusFilter, departmentFilter, categoryFilter));
  }

  /**
   * The result is an order-preserving subsequence of the input; it holds a record exactly
   * when the record is in the input and passes every filter that is not "All".
   */
  lemma FilterSoundAndComplete(audits: seq<Audit>, statusFilter: string, departmentFilter: string, categoryFilter: string)
    ensures var r := FilterAudits(audits, statusFilter, departmentFilter, categoryFilter);
      && IsSubsequence(r, audits)
      && forall a :: a in r <==> a in audits && MatchesAll(a, statusFilter, departmentFilter, categoryFilter)
  {
    FilterIsSinglePass(audits, statusFilter, departmentFilter, categoryFilter);
    WhereIsSubsequence(audits, a => MatchesAll(a, statusFilter, departmentFilter, categoryFilter));
  }

  /** With every filter at "All" the list comes back unchanged. */
  lemma AllFiltersOff(audits: seq<Audit>)
    ensures FilterAudits(audits, All, All, All) == audits
  {
  }

  /** The order in which the filters are applied does not matter. */
  lemma FilterOrderIrrelevant(audits: seq<Audit>, f: Field, v: string, g: Field, w: string)
    ensures Restrict(Restrict(audits, f, v), g, w) == Restrict(Restrict(audits, g, w), f, v)
  {
    RestrictIsWhere(audits, f, v);
    RestrictIsWhere(audits, g, w);
    RestrictIsWhere(Restrict(audits, f, v), g, w);
    RestrictIsWhere(Restrict(audits, g, w), f, v);
    WhereWhere(audits, a => Passes(a, f, v), a => Passes(a, g, w), a => Passes(a, f, v) && Passes(a, g, w));
    WhereWhere(audits, a => Passes(a, g, w), a => Passes(a, f, v), a => Passes(a, g, w) && Passes(a, f, v));
    WhereCongruent(audits, a => Passes(a, f, v) && Passes(a, g, w), a => Passes(a, g, w) && Passes(a, f, v));
  }
}
