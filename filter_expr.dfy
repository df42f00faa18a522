/**
 * The predicate compiler `fromWhereExpr`: a `WhereExpr` condition tree
 * becomes a DynamoDB filter-expression string, while the field names it
 * mentions are bound to `#condNameN` aliases and its literals to
 * `:condValueN` placeholders. Field aliases are shared by repeated field
 * names; literals always get a fresh placeholder. Each kind of binding is
 * numbered by how many of its kind are already bound.
 */
module FilterExpr {
  import opened Wrappers
  import opened Seqs
  import opened Decimal

  datatype WhereExpr =
    | Field(name: string)
    | Literal(value: string)
    | Equals(l: WhereExpr, r: WhereExpr)
    | Contains(l: WhereExpr, r: WhereExpr)
    | And(l: WhereExpr, r: WhereExpr)
    | Or(l: WhereExpr, r: WhereExpr)
    | Not(inner: WhereExpr)

  datatype CompileError = UnsupportedPredicate

  /**
   * The two binding maps, kept in allocation order: `names[i]` is the field
   * bound to alias `NameAlias(i)` and `values[i]` the literal bound to
   * placeholder `ValueAlias(i)`.
   */
  datatype Bindings = Bindings(names: seq<string>, values: seq<string>)

  const EmptyBindings: Bindings := Bindings([], [])

  /** Event payload attributes live under this top-level map attribute. */
  const FieldsRoot: string := "FieldsMap."

  function NameAlias(i: nat): string {
    "#condName" + NatToString(i)
  }

  function ValueAlias(i: nat): string {
    ":condValue" + NatToString(i)
  }

  /** Different numbers give different aliases and placeholders. */
  lemma AliasesDistinct(i: nat, j: nat)
    ensures NameAlias(i) == NameAlias(j) ==> i == j
    ensures ValueAlias(i) == ValueAlias(j) ==> i == j
  {
    assert NameAlias(i)[9..] == NatToString(i) && NameAlias(j)[9..] == NatToString(j);
    assert ValueAlias(i)[10..] == NatToString(i) && ValueAlias(j)[10..] == NatToString(j);
    NatToStringInjective(i, j);
  }

  /** The next alias or placeholder differs from every one allocated before it. */
  lemma AliasesFresh(n: nat)
    ensures forall i :: 0 <= i < n ==> NameAlias(i) != NameAlias(n) && ValueAlias(i) != ValueAlias(n)
  {
    forall i | 0 <= i < n ensures NameAlias(i) != NameAlias(n) && ValueAlias(i) != ValueAlias(n) {
      AliasesDistinct(i, n);
    }
  }

  /** `attrNames`: alias to field name, one entry added per allocation. */
  function NameBindings(names: seq<string>): map<string, string> {
    if names == [] then map[]
    else NameBindings(names[..|names| - 1])[NameAlias(|names| - 1) := names[|names| - 1]]
  }

  /** `attrValues`: placeholder to literal, one entry added per allocation. */
  function ValueBindings(values: seq<string>): map<string, string> {
    if values == [] then map[]
    else ValueBindings(values[..|values| - 1])[ValueAlias(|values| - 1) := values[|values| - 1]]
  }

  /** Alias `NameAlias(i)` is bound to the i-th allocated field. */
  lemma {:induction false} NameBindingsBound(names: seq<string>)
    ensures forall i :: 0 <= i < |names| ==> NameAlias(i) in NameBindings(names) && NameBindings(names)[NameAlias(i)] == names[i]
  {
    if names != [] {
      var n := |names| - 1;
      var prefix := names[..n];
      NameBindingsBound(prefix);
      AliasesFresh(n);
      forall i | 0 <= i < n ensures NameAlias(i) in NameBindings(names) && NameBindings(names)[NameAlias(i)] == names[i] {
        assert prefix[i] == names[i];
      }
    }
  }

  /** Only allocated aliases are bound. */
  lemma {:induction false} NameBindingsOnly(names: seq<string>)
    ensures forall k :: k in NameBindings(names) ==> exists i :: 0 <= i < |names| && k == NameAlias(i)
  {
    if names != [] {
      var n := |names| - 1;
      NameBindingsOnly(names[..n]);
      forall k | k in NameBindings(names) ensures exists i :: 0 <= i < |names| && k == NameAlias(i) {
        if k == NameAlias(n) {
          assert 0 <= n < |names| && k == NameAlias(n);
        } else {
          assert k in NameBindings(names[..n]);
          var i :| 0 <= i < n && k == NameAlias(i);
          assert 0 <= i < |names| && k == NameAlias(i);
        }
      }
    }
  }

  /** Placeholder `ValueAlias(i)` is bound to the i-th literal. */
  lemma {:induction false} ValueBindingsBound(values: seq<string>)
    ensures forall i :: 0 <= i < |values| ==> ValueAlias(i) in ValueBindings(values) && ValueBindings(values)[ValueAlias(i)] == values[i]
  {
    if values != [] {
      var n := |values| - 1;
      var prefix := values[..n];
      ValueBindingsBound(prefix);
      AliasesFresh(n);
      forall i | 0 <= i < n ensures ValueAlias(i) in ValueBindings(values) && ValueBindings(values)[ValueAlias(i)] == values[i] {
        assert prefix[i] == values[i];
      }
    }
  }

  /** Only allocated placeholders are bound. */
  lemma {:induction false} ValueBindingsOnly(values: seq<string>)
    ensures forall k :: k in ValueBindings(values) ==> exists i :: 0 <= i < |values| && k == ValueAlias(i)
  {
    if values != [] {
      var n := |values| - 1;
      ValueBindingsOnly(values[..n]);
      forall k | k in ValueBindings(values) ensures exists i :: 0 <= i < |values| && k == ValueAlias(i) {
        if k == ValueAlias(n) {
          assert 0 <= n < |values| && k == ValueAlias(n);
        } else {
          assert k in ValueBindings(values[..n]);
          var i :| 0 <= i < n && k == ValueAlias(i);
          assert 0 <= i < |values| && k == ValueAlias(i);
        }
      }
    }
  }

  /** An operand naming a field; the zero value "" stands for no field at all. */
  predicate IsField(e: WhereExpr) {
    e.Field? && e.name != ""
  }

  /** A comparison needs one field and one literal, in either order. */
  predicate FieldAndLiteral(l: WhereExpr, r: WhereExpr) {
    (IsField(l) && r.Literal?) || (l.Literal? && IsField(r))
  }

  /**
   * The reference for one operand: a field reuses its alias when already
   * bound and otherwise binds the next one; a literal always binds the next
   * placeholder.
   */
  function Operand(e: WhereExpr, b: Bindings): (string, Bindings)
    requires IsField(e) || e.Literal?
  {
    if e.Field? then
      match IndexOf(b.names, e.name)
      case Some(k) => (FieldsRoot + NameAlias(k), b)
      case None => (FieldsRoot + NameAlias(|b.names|), b.(names := b.names + [e.name]))
    else
      (ValueAlias(|b.values|), b.(values := b.values + [e.value]))
  }

  /** The outcome of a compilation and the bindings as it left them. */
  datatype Compiled = Compiled(expr: Result<string, CompileError>, bindings: Bindings)

  /** The comparison of two operand references; `contains` when `isContains`. */
  function ComparisonText(isContains: bool, x: string, y: string): string {
    if isContains then "contains(" + x + ", " + y + ")" else x + " = " + y
  }

  /** Both sides parenthesised around the connective `op`. */
  function ConnectiveText(op: string, x: string, y: string): string {
    "(" + x + ") " + op + " (" + y + ")"
  }

  function NegationText(x: string): string {
    "NOT (" + x + ")"
  }

  /** `fromWhereExpr(cond, &params)`, with the bindings threaded explicitly; left before right. */
  function Compile(e: WhereExpr, b: Bindings): Compiled
    decreases e, 1
  {
    match e
    case Field(_) => Compiled(Failure(UnsupportedPredicate), b)
    case Literal(_) => Compiled(Failure(UnsupportedPredicate), b)
    case Equals(l, r) => CompileComparison(e, b)
    case Contains(l, r) => CompileComparison(e, b)
    case And(l, r) => CompileConnective(e, b)
    case Or(l, r) => CompileConnective(e, b)
    case Not(x) =>
      var inner := Compile(x, b);
      if inner.expr.Failure? then inner
      else Compiled(Success(NegationText(inner.expr.value)), inner.bindings)
  }

  /** A comparison: the left operand is bound before the right one. */
  function CompileComparison(e: WhereExpr, b: Bindings): Compiled
    requires e.Equals? || e.Contains?
  {
    if !FieldAndLiteral(e.l, e.r) then Compiled(Failure(UnsupportedPredicate), b)
    else
      var (x, b1) := Operand(e.l, b);
      var (y, b2) := Operand(e.r, b1);
      Compiled(Success(ComparisonText(e.Contains?, x, y)), b2)
  }

  /** AND or OR: the left operand is compiled first; the first failure is the outcome. */
  function CompileConnective(e: WhereExpr, b: Bindings): Compiled
    requires e.And? || e.Or?
    decreases e, 0
  {
    var left := Compile(e.l, b);
    if left.expr.Failure? then left
    else
      var right := Compile(e.r, left.bindings);
      if right.expr.Failure? then right
      else Compiled(Success(ConnectiveText(if e.And? then "AND" else "OR", left.expr.value, right.expr.value)), right.bindings)
  }

  // ----- Reference definitions -----

  /** The closed grammar: comparisons of a field with a literal, under AND, OR and NOT. */
  predicate Supported(e: WhereExpr) {
    match e
    case Field(_) => false
    case Literal(_) => false
    case Equals(l, r) => FieldAndLiteral(l, r)
    case Contains(l, r) => FieldAndLiteral(l, r)
    case And(l, r) => Supported(l) && Supported(r)
    case Or(l, r) => Supported(l) && Supported(r)
    case Not(x) => Supported(x)
  }

  /** The literals of the tree, left to right. */
  function Literals(e: WhereExpr): seq<string> {
    match e
    case Field(_) => []
    case Literal(v) => [v]
    case Equals(l, r) => Literals(l) + Literals(r)
    case Contains(l, r) => Literals(l) + Literals(r)
    case And(l, r) => Literals(l) + Literals(r)
    case Or(l, r) => Literals(l) + Literals(r)
    case Not(x) => Literals(x)
  }

  /** The field names of the tree, left to right, repetitions included. */
  function FieldNames(e: WhereExpr): seq<string> {
    match e
    case Field(n) => [n]
    case Literal(_) => []
    case Equals(l, r) => FieldNames(l) + FieldNames(r)
    case Contains(l, r) => FieldNames(l) + FieldNames(r)
    case And(l, r) => FieldNames(l) + FieldNames(r)
    case Or(l, r) => FieldNames(l) + FieldNames(r)
    case Not(x) => FieldNames(x)
  }

  /** `names` followed by each of `fs` not seen before, in first-occurrence order. */
  function AddNew(names: seq<string>, fs: seq<string>): seq<string>
    decreases |fs|
  {
    if fs == [] then names
    else AddNew(if fs[0] in names then names else names + [fs[0]], fs[1..])
  }

  // ----- Properties of the compiler -----

  lemma {:induction false} AddNewAppend(names: seq<string>, a: seq<string>, c: seq<string>)
    ensures AddNew(names, a + c) == AddNew(AddNew(names, a), c)
    decreases |a|
  {
    if a == [] {
      assert a + c == c;
    } else {
      assert (a + c)[0] == a[0] && (a + c)[1..] == a[1..] + c;
      AddNewAppend(if a[0] in names then names else names + [a[0]], a[1..], c);
    }
  }

  /** Compilation succeeds exactly on trees of the closed grammar. */
  lemma {:induction false} CompileSucceedsIff(e: WhereExpr, b: Bindings)
    ensures Compile(e, b).expr.Success? <==> Supported(e)
  {
    match e
    case Field(_) =>
    case Literal(_) =>
    case Equals(_, _) =>
    case Contains(_, _) =>
    case And(l, r) =>
      CompileSucceedsIff(l, b);
      CompileSucceedsIff(r, Compile(l, b).bindings);
    case Or(l, r) =>
      CompileSucceedsIff(l, b);
      CompileSucceedsIff(r, Compile(l, b).bindings);
    case Not(x) =>
      CompileSucceedsIff(x, b);
  }

  /** The bindings a comparison leaves: its literal appended, its field added if new. */
  lemma ComparisonBindings(e: WhereExpr, b: Bindings)
    requires (e.Equals? || e.Contains?) && FieldAndLiteral(e.l, e.r)
    ensures Compile(e, b).bindings == Operand(e.r, Operand(e.l, b).1).1
    ensures Compile(e, b).bindings.values == b.values + Literals(e)
    ensures Compile(e, b).bindings.names == AddNew(b.names, FieldNames(e))
  {
    if e.l.Literal? {
      assert Literals(e) == [e.l.value] + [];
      assert FieldNames(e) == [] + [e.r.name];
    } else {
      assert Literals(e) == [] + [e.r.value];
      assert FieldNames(e) == [e.l.name] + [];
    }
  }

  /** A supported connective leaves the bindings its right operand leaves after its left one. */
  lemma ConnectiveBindings(e: WhereExpr, b: Bindings)
    requires (e.And? || e.Or?) && Supported(e)
    ensures Compile(e, b).bindings == Compile(e.r, Compile(e.l, b).bindings).bindings
  {
    CompileSucceedsIff(e.l, b);
    CompileSucceedsIff(e.r, Compile(e.l, b).bindings);
  }

  /** Every literal gets its own placeholder, in left-to-right order: values are never shared. */
  lemma {:induction false} CompileValues(e: WhereExpr, b: Bindings)
    requires Supported(e)
    ensures Compile(e, b).bindings.values == b.values + Literals(e)
    decreases e, 1
  {
    if e.Equals? || e.Contains? {
      ComparisonBindings(e, b);
    } else if e.And? || e.Or? {
      ConnectiveValues(e, b);
    } else if e.Not? {
      CompileValues(e.inner, b);
    }
  }

  lemma {:induction false} ConnectiveValues(e: WhereExpr, b: Bindings)
    requires (e.And? || e.Or?) && Supported(e)
    ensures Compile(e, b).bindings.values == b.values + Literals(e)
    decreases e, 0
  {
    var b1 := Compile(e.l, b).bindings;
    ConnectiveBindings(e, b);
    CompileValues(e.l, b);
    CompileValues(e.r, b1);
    assert (b.values + Literals(e.l)) + Literals(e.r) == b.values + Literals(e);
  }

  /** A field name gets an alias only the first time it occurs: names are shared. */
  lemma {:induction false} CompileNames(e: WhereExpr, b: Bindings)
    requires Supported(e)
    ensures Compile(e, b).bindings.names == AddNew(b.names, FieldNames(e))
    decreases e, 1
  {
    if e.Equals? || e.Contains? {
      ComparisonBindings(e, b);
    } else if e.And? || e.Or? {
      ConnectiveNames(e, b);
    } else if e.Not? {
      CompileNames(e.inner, b);
    }
  }

  lemma {:induction false} ConnectiveNames(e: WhereExpr, b: Bindings)
    requires (e.And? || e.Or?) && Supported(e)
    ensures Compile(e, b).bindings.names == AddNew(b.names, FieldNames(e))
    decreases e, 0
  {
    var b1 := Compile(e.l, b).bindings;
    ConnectiveBindings(e, b);
    CompileNames(e.l, b);
    CompileNames(e.r, b1);
    AddNewAppend(b.names, FieldNames(e.l), FieldNames(e.r));
  }

  /** `c` keeps every binding of `b` at its number, and binds no field twice if `b` did not. */
  predicate Extends(b: Bindings, c: Bindings) {
    && |b.names| <= |c.names| && c.names[..|b.names|] == b.names
    && |b.values| <= |c.values| && c.values[..|b.values|] == b.values
    && (NoDuplicates(b.names) ==> NoDuplicates(c.names))
  }

  lemma ExtendsTransitive(a: Bindings, b: Bindings, c: Bindings)
    requires Extends(a, b) && Extends(b, c)
    ensures Extends(a, c)
  {
    assert c.names[..|a.names|] == c.names[..|b.names|][..|a.names|];
    assert c.values[..|a.values|] == c.values[..|b.values|][..|a.values|];
  }

  /** One operand adds at most a new field or a new literal, and never a field already bound. */
  lemma OperandExtends(e: WhereExpr, b: Bindings)
    requires IsField(e) || e.Literal?
    ensures Extends(b, Operand(e, b).1)
  {
    var c := Operand(e, b).1;
    assert c.names[..|b.names|] == b.names;
    assert c.values[..|b.values|] == b.values;
  }

  /**
   * Whatever the outcome, compiling only adds bindings, and a field is never
   * bound under two aliases.
   */
  lemma {:induction false} CompileExtends(e: WhereExpr, b: Bindings)
    ensures Extends(b, Compile(e, b).bindings)
    decreases e, 1
  {
    match e
    case Field(_) =>
    case Literal(_) =>
    case Equals(l, r) =>
      ComparisonExtends(e, b);
    case Contains(l, r) =>
      ComparisonExtends(e, b);
    case And(l, r) =>
      ConnectiveExtends(e, b);
    case Or(l, r) =>
      ConnectiveExtends(e, b);
    case Not(x) =>
      CompileExtends(x, b);
  }

  lemma ComparisonExtends(e: WhereExpr, b: Bindings)
    requires e.Equals? || e.Contains?
    ensures Extends(b, CompileComparison(e, b).bindings)
  {
    if FieldAndLiteral(e.l, e.r) {
      var b1 := Operand(e.l, b).1;
      OperandExtends(e.l, b);
      OperandExtends(e.r, b1);
      ExtendsTransitive(b, b1, Operand(e.r, b1).1);
    }
  }

  lemma {:induction false} ConnectiveExtends(e: WhereExpr, b: Bindings)
    requires e.And? || e.Or?
    ensures Extends(b, CompileConnective(e, b).bindings)
    decreases e, 0
  {
    var left := Compile(e.l, b);
    CompileExtends(e.l, b);
    if left.expr.Success? {
      CompileExtends(e.r, left.bindings);
      ExtendsTransitive(b, left.bindings, Compile(e.r, left.bindings).bindings);
    }
  }

  /** With distinct names, `attrNames` sends different aliases to different fields. */
  lemma NameBindingsInjective(names: seq<string>)
    requires NoDuplicates(names)
    ensures forall k1, k2 :: k1 in NameBindings(names) && k2 in NameBindings(names) && k1 != k2 ==>
      NameBindings(names)[k1] != NameBindings(names)[k2]
  {
    var m := NameBindings(names);
    NameBindingsBound(names);
    NameBindingsOnly(names);
    forall k1, k2 | k1 in m && k2 in m && k1 != k2 ensures m[k1] != m[k2] {
      var i :| 0 <= i < |names| && k1 == NameAlias(i);
      var j :| 0 <= j < |names| && k2 == NameAlias(j);
      assert m[k1] == names[i] && m[k2] == names[j];
      assert i != j;
    }
  }

  /**
   * The bindings `params` that `fromWhereExpr` fills in place. The two Go maps
   * are `AttrNames()` and `AttrValues()`; their allocation order is kept in
   * `names` and `values`.
   */
  class CondFilterParams {
    var names: seq<string>
    var values: seq<string>

    constructor ()
      ensures names == [] && values == []
    {
      names := [];
      values := [];
    }

    function State(): Bindings
      reads this
    {
      Bindings(names, values)
    }

    function AttrNames(): map<string, string>
      reads this
    {
      NameBindings(names)
    }

    function AttrValues(): map<string, string>
      reads this
    {
      ValueBindings(values)
    }

    /** Scans the bound names for `n`, as `addAttrName` searches `attrNames`. */
    method FindAlias(n: string) returns (k: Option<nat>)
      ensures k == IndexOf(names, n)
    {
      var i := 0;
      while i < |names|
        invariant 0 <= i <= |names|
        invariant forall j :: 0 <= j < i ==> names[j] != n
      {
        if names[i] == n {
          IndexOfFirst(names, n, i);
          return Some(i);
        }
        i := i + 1;
      }
      return None;
    }

    /** `addAttrName` or `addAttrValue`: the reference for one operand. */
    method AddOperand(e: WhereExpr) returns (ref: string)
      requires IsField(e) || e.Literal?
      modifies this
      ensures (ref, State()) == Operand(e, old(State()))
    {
      if e.Field? {
        var k := FindAlias(e.name);
        if k.Some? {
          ref := FieldsRoot + NameAlias(k.value);
        } else {
          ref := FieldsRoot + NameAlias(|names|);
          names := names + [e.name];
        }
      } else {
        ref := ValueAlias(|values|);
        values := values + [e.value];
      }
    }

    /** `fromWhereExpr(cond, &params)`: compiles `cond`, updating the bindings in place. */
    method FromWhereExpr(cond: WhereExpr) returns (r: Result<string, CompileError>)
      modifies this
      ensures Compiled(r, State()) == Compile(cond, old(State()))
      decreases cond
    {
      match cond {
        case Field(_) =>
          r := Failure(UnsupportedPredicate);
        case Literal(_) =>
          r := Failure(UnsupportedPredicate);
        case Equals(l, rt) =>
          if !FieldAndLiteral(l, rt) {
            return Failure(UnsupportedPredicate);
          }
          var x := AddOperand(l);
          var y := AddOperand(rt);
          r := Success(ComparisonText(false, x, y));
        case Contains(l, rt) =>
          if !FieldAndLiteral(l, rt) {
            return Failure(UnsupportedPredicate);
          }
          var x := AddOperand(l);
          var y := AddOperand(rt);
          r := Success(ComparisonText(true, x, y));
        case And(l, rt) =>
          var left := FromWhereExpr(l);
          if left.Failure? {
            return left;
          }
          var right := FromWhereExpr(rt);
          if right.Failure? {
            return right;
          }
          r := Success(ConnectiveText("AND", left.value, right.value));
        case Or(l, rt) =>
          var left := FromWhereExpr(l);
          if left.Failure? {
            return left;
          }
          var right := FromWhereExpr(rt);
          if right.Failure? {
            return right;
          }
          r := Success(ConnectiveText("OR", left.value, right.value));
        case Not(x) =>
          var inner := FromWhereExpr(x);
          if inner.Failure? {
            return inner;
          }
          r := Success(NegationText(inner.value));
      }
    }
  }
}
