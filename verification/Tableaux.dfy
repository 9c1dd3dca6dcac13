/** The tableau of Source/GSCSTableau.m: rows, the redundant column index, and the two
    tables about external variables.  A row is held as the value of its expression; the
    functions of RowAlgebra are the ones the methods of LinearExpression are proved against. */
module Tableaux {
  import opened Options
  import opened Variables
  import opened LinearAlgebra
  import opened RowAlgebra
  import opened Expressions
  import opened Simplex

  type Columns = map<Variable, set<Variable>>

  function Column(columns: Columns, v: Variable): set<Variable> {
    if v in columns then columns[v] else {}
  }

  /** `columns` lists, for each variable outside `skip`, exactly the rows that mention it. */
  ghost predicate IndexOutside(rows: Rows, columns: Columns, skip: set<Variable>) {
    && (forall v, r {:trigger r in Column(columns, v)} ::
          v !in skip && r in Column(columns, v) ==> r in rows && v in rows[r].terms)
    && (forall r <- rows, v <- rows[r].terms :: v !in skip ==> r in Column(columns, v))
  }

  ghost predicate IndexOf(rows: Rows, columns: Columns) {
    IndexOutside(rows, columns, {})
  }

  lemma DropColumn(rows: Rows, columns: Columns, v: Variable)
    requires IndexOutside(rows, columns, {v})
    requires forall r <- rows :: v !in rows[r].terms
    ensures IndexOf(rows, columns - {v})
  {
    forall u ensures Column(columns - {v}, u) == if u == v then {} else Column(columns, u) {
    }
  }

  /** Replacing row `r` keeps the index exact when only the entries of `r` move. */
  lemma IndexStep(rows: Rows, columns: Columns, skip: Variable, r: Variable, row: Expr, after: Columns)
    requires IndexOutside(rows, columns, {skip}) && r in rows
    requires forall u, q {:trigger q in Column(after, u)} ::
      q in Column(after, u) <==> if q == r && u != skip then u in row.terms else q in Column(columns, u)
    ensures IndexOutside(rows[r := row], after, {skip})
  {
    var now := rows[r := row];
    forall q, u | q in now && u in now[q].terms && u != skip ensures q in Column(after, u) {
    }
  }

  lemma RemoveColumnRecorded(rows: Rows, recorded: set<Variable>, indexed: set<Variable>, v: Variable, after: Rows)
    requires ExternalTermsRecorded(rows, recorded, indexed, {})
    requires after.Keys == rows.Keys && forall r <- rows :: after[r] == Without(rows[r], v)
    ensures ExternalTermsRecorded(after, recorded, indexed - {v}, {}) <==> v !in recorded
    ensures v in recorded ==> v.IsExternal()
  {
    assert v in recorded ==> v !in (indexed - {v}) + {};
  }

  lemma RemoveColumnIndexed(rows: Rows, columns: Columns, v: Variable, after: Rows)
    requires Solved(rows) && IndexOf(rows, columns) && after.Keys == rows.Keys
    requires forall r <- after :: after[r] == Without(rows[r], v)
    ensures Solved(after) && IndexOf(after, columns - {v})
  {
    assert IndexOutside(after, columns, {v});
    DropColumn(after, columns, v);
  }

  /** Substitution keeps the rows solved and removes `v` from all of them. */
  lemma SubstituteAllSolved(rows: Rows, v: Variable, e: Expr)
    requires Solved(rows) && ZeroFree(e) && v !in rows && v !in e.terms
    requires forall u <- e.terms :: u !in rows
    ensures Solved(SubstituteAll(rows, v, e))
    ensures forall r <- rows :: v !in SubstituteAll(rows, v, e)[r].terms
  {
    forall r <- rows ensures ZeroFree(Substitute(rows[r], v, e)) {
      if v in rows[r].terms {
        SubstituteCoefs(rows[r], v, e);
      }
    }
  }

  /** Substitution brings in no external terms beyond those of `e`. */
  lemma SubstituteAllRecorded(rows: Rows, recorded: set<Variable>, indexed: set<Variable>,
                              v: Variable, e: Expr, after: set<Variable>)
    requires ExternalTermsRecorded(rows, recorded, indexed, e.terms.Keys)
    requires v !in e.terms && indexed - {v} <= after
    ensures ExternalTermsRecorded(SubstituteAll(rows, v, e), recorded - {v}, after, e.terms.Keys)
  {}

  /** The set of external subjects is the set of subjects that are external. */
  ghost predicate ExternalRowsMatch(rows: Rows, externalRows: set<Variable>) {
    forall r :: r in externalRows <==> r in rows && r.IsExternal()
  }

  /** Every external term of a row is recorded, and only parameters with a column are; the
      terms in `loose` are about to be entered. */
  ghost predicate ExternalTermsRecorded(rows: Rows, recorded: set<Variable>, indexed: set<Variable>,
                                        loose: set<Variable>) {
    && (forall r <- rows, v <- rows[r].terms :: v.IsExternal() ==> v in recorded + loose)
    && (forall v <- recorded :: v.IsExternal() && v !in rows && v in indexed + loose)
  }

  /** Adding a row keeps the table solved and its index exact. */
  lemma AddRowIndexed(rows: Rows, columns: Columns, v: Variable, e: Expr, after: Columns)
    requires Solved(rows) && IndexOf(rows, columns)
    requires v !in rows && v !in columns && ZeroFree(e) && forall u <- e.terms :: u !in rows && u != v
    requires after.Keys == columns.Keys + e.terms.Keys
    requires forall u, r {:trigger r in Column(after, u)} ::
      r in Column(after, u) <==> r in Column(columns, u) || (r == v && u in e.terms)
    ensures Solved(rows[v := e]) && IndexOf(rows[v := e], after)
  {
    assert Column(columns, v) == {};
    forall r, u | r in rows && u in rows[r].terms ensures r in Column(after, u) && u != v {
      assert r in Column(columns, u);
    }
  }

  function Externals(s: set<Variable>): set<Variable> {
    set v | v in s && v.IsExternal()
  }

  lemma AddRowRecorded(rows: Rows, recorded: set<Variable>, indexed: set<Variable>, v: Variable, e: Expr)
    requires ExternalTermsRecorded(rows, recorded, indexed, e.terms.Keys)
    requires v !in recorded && forall u <- e.terms :: u !in rows && u != v
    ensures ExternalTermsRecorded(rows[v := e], recorded + Externals(e.terms.Keys), indexed + e.terms.Keys, {})
  {}

  lemma ScaleZeroFree(e: Expr, k: real)
    requires ZeroFree(e) && k != 0.0
    ensures ZeroFree(Scale(e, k)) && Scale(e, k).terms.Keys == e.terms.Keys
  {
    forall v <- e.terms ensures e.terms[v] * k != 0.0 {
      NonZeroProduct(e.terms[v], k);
    }
  }

  lemma MulComm(a: real, b: real)
    ensures a * b == b * a
  {}

  lemma ScaledCoef(row: Expr, v: Variable, e: Expr, t: Variable)
    requires v !in e.terms
    ensures SubstitutedCoef(row, v, e, t) ==
      (if t == v then 0.0 else Coef(row, t)) + Coef(Scale(e, Coef(row, v)), t)
  {
    MulComm(Coef(e, t), Coef(row, v));
    MulZero(Coef(row, v));
  }

  lemma SubstituteElsewhere(rows: Rows, v: Variable, e: Expr)
    ensures forall r <- rows :: v !in rows[r].terms ==> SubstituteAll(rows, v, e)[r] == rows[r]
  {}

  lemma ColumnIs(rows: Rows, columns: Columns, v: Variable)
    requires IndexOf(rows, columns)
    ensures forall r :: r in Column(columns, v) <==> r in rows && v in rows[r].terms
    ensures IndexOutside(rows, columns, {v})
  {}

  lemma RowInIndex(rows: Rows, columns: Columns, v: Variable, r: Variable)
    requires IndexOutside(rows, columns, {v}) && r in rows
    ensures forall u :: u != v ==> (u in rows[r].terms <==> r in Column(columns, u))
  {}

  lemma SolvedRow(rows: Rows, r: Variable)
    requires Solved(rows) && r in rows
    ensures ZeroFree(rows[r]) && forall v <- rows[r].terms :: v !in rows
  {}

  /** Once the exit row is gone and the exit variable recorded, the terms of the new
      row are the only ones still to be entered. */
  lemma PivotRecorded(rows: Rows, recorded: set<Variable>, indexed: set<Variable>, entry: Variable, exit: Variable,
                      e: Expr)
    requires ExternalTermsRecorded(rows, recorded, indexed, {}) && exit in rows
    requires exit in e.terms
    ensures ExternalTermsRecorded(rows - {exit}, recorded
      + (if exit.IsExternal() then {exit} else {}), indexed, e.terms.Keys)
  {}

  /** Rows outside the column of `v` are left alone by the substitution. */
  lemma PivotListed(rows: Rows, columns: Columns, v: Variable, e: Expr)
    requires IndexOf(rows, columns)
    ensures forall r <- rows :: r in Column(columns, v) || SubstituteAll(rows, v, e)[r] == rows[r]
  {}

  function AddTerm(e: Expr, v: Variable, k: real): Expr {
    if v !in e.terms then With(e, v, k)
    else if e.terms[v] + k == 0.0 then Without(e, v)
    else With(e, v, e.terms[v] + k)
  }

  lemma AddTermValid(rows: Rows, columns: Columns, subject: Variable, v: Variable, k: real, after: Columns)
    requires Solved(rows) && IndexOf(rows, columns) && subject in rows && v !in rows
    requires forall u, r {:trigger r in Column(after, u)} ::
      r in Column(after, u) <==>
        if u == v && r == subject then Coef(rows[subject], v) + k != 0.0 else r in Column(columns, u)
    ensures var now := rows[subject := AddTerm(rows[subject], v, k)]; Solved(now) && IndexOf(now, after)
  {
    var now := rows[subject := AddTerm(rows[subject], v, k)];
    forall r, u | r in now && u in now[r].terms ensures r in Column(after, u) {
    }
  }

  lemma AddTermRecorded(rows: Rows, externalRows: set<Variable>, recorded: set<Variable>, indexed: set<Variable>,
                        subject: Variable, v: Variable, k: real, recordedAfter: set<Variable>,
                          indexedAfter: set<Variable>)
    requires ExternalRowsMatch(rows, externalRows) && ExternalTermsRecorded(rows, recorded, indexed, {})
    requires subject in rows && v !in rows && recorded <= recordedAfter <= recorded + Externals({v})
      && indexed <= indexedAfter
    requires v.IsExternal() && v in AddTerm(rows[subject], v, k).terms ==> v in recordedAfter
    requires v in recordedAfter ==> v in recorded || v in indexedAfter
    ensures var now := rows[subject := AddTerm(rows[subject], v, k)];
            ExternalRowsMatch(now, externalRows) && ExternalTermsRecorded(now, recordedAfter, indexedAfter, {})
  {
    forall u | u in AddTerm(rows[subject], v, k).terms && u.IsExternal() ensures u in recordedAfter {
      assert u == v || u in rows[subject].terms;
    }
  }

  lemma ScaleKeys(e: Expr, k: real)
    ensures Scale(e, k).terms.Keys == e.terms.Keys
  {}

  lemma AddTermCoef(e: Expr, v: Variable, k: real)
    ensures AddTerm(e, v, k).constant == e.constant
    ensures forall t {:trigger Coef(AddTerm(e, v, k), t)} ::
      Coef(AddTerm(e, v, k), t) == Coef(e, t) + if t == v then k else 0.0
  {}

  lemma TermsHaveColumns(rows: Rows, columns: Columns, r: Variable)
    requires IndexOf(rows, columns) && r in rows
    ensures rows[r].terms.Keys <= columns.Keys
  {
    forall v | v in rows[r].terms ensures v in columns {
      assert r in Column(columns, v);
    }
  }

  class Tableau {
    var rows: Rows
    var columns: Columns
    /** The source maps each external subject to its row object; the object is the one in
        `_rows`, so only the key is state of its own. */
    var externalRows: set<Variable>
    var externalParametricVariables: set<Variable>
    var infeasibleRows: seq<Variable>
    var objective: Variable

    /** The invariant, while the terms in `loose` wait to be entered. */
    ghost predicate Consistent(loose: set<Variable>)
      reads this
    {
      && Solved(rows)
      && IndexOf(rows, columns)
      && columns.Keys !! rows.Keys
      && ExternalRowsMatch(rows, externalRows)
      && ExternalTermsRecorded(rows, externalParametricVariables, columns.Keys, loose)
      && (forall r <- infeasibleRows :: r.IsRestricted())
    }

    ghost predicate Valid()
      reads this
    {
      Consistent({})
    }

    /** The state between substituting `v` out of every row and adding its own row. */
    ghost predicate Awaits(v: Variable, terms: set<Variable>)
      reads this
    {
      && Solved(rows)
      && IndexOf(rows, columns)
      && columns.Keys !! rows.Keys
      && v !in rows && v !in columns && v !in externalParametricVariables
      && ExternalRowsMatch(rows, externalRows - {v}) && (v in externalRows ==> v.IsExternal())
      && ExternalTermsRecorded(rows, externalParametricVariables, columns.Keys, terms)
      && (forall r <- infeasibleRows :: r.IsRestricted())
    }

    /** Every variable the tableau has met. */
    ghost function Known(): set<Variable>
      reads this
    {
      rows.Keys + columns.Keys
    }

    constructor (objective: Variable)
      requires objective.kind.Objective?
      ensures Valid()
      ensures rows == map[objective := Expr(map[], 0.0)] && this.objective == objective
      ensures columns == map[] && infeasibleRows == []
    {
      rows := map[objective := Expr(map[], 0.0)];
      columns, externalRows, externalParametricVariables, infeasibleRows := map[], {}, {}, [];
      this.objective := objective;
    }

    lemma ColumnRows(v: Variable)
      requires Valid()
      ensures forall r :: r in Column(columns, v) <==> r in rows && v in rows[r].terms
    {
      ColumnIs(rows, columns, v);
    }

    /** A variable the tableau has not met is ready to receive a row. */
    lemma NewAwaits(v: Variable, terms: set<Variable>)
      requires Valid() && v !in rows && v !in columns
      ensures Awaits(v, terms)
    {
      assert v !in externalRows;
    }

    method AddMapping(columnVariable: Variable, rowVariable: Variable)
      modifies this`columns
      ensures columns.Keys == old(columns).Keys + {columnVariable}
      ensures forall u, r {:trigger r in Column(columns, u)} ::
        r in Column(columns, u) <==> r in Column(old(columns), u) || (u == columnVariable && r == rowVariable)
    {
      columns := columns[columnVariable := Column(columns, columnVariable) + {rowVariable}];
    }

    method RemoveMapping(columnVariable: Variable, rowVariable: Variable)
      modifies this`columns
      ensures columns.Keys == old(columns).Keys
      ensures forall u, r {:trigger r in Column(columns, u)} ::
        r in Column(columns, u) <==> r in Column(old(columns), u) && !(u == columnVariable && r == rowVariable)
    {
      if columnVariable in columns {
        columns := columns[columnVariable := columns[columnVariable] - {rowVariable}];
      }
    }

    /** `addTermVariablesForExpression:variable:` */
    method AddTermVariables(terms: set<Variable>, v: Variable)
      modifies this`columns, this`externalParametricVariables
      ensures columns.Keys == old(columns).Keys + terms
      ensures forall u, r {:trigger r in Column(columns, u)} ::
        r in Column(columns, u) <==> r in Column(old(columns), u) || (r == v && u in terms)
      ensures forall u :: u in externalParametricVariables <==>
        u in old(externalParametricVariables) || (u in terms && u.IsExternal())
    {
      var todo := terms;
      while todo != {}
        invariant todo <= terms
        invariant columns.Keys == old(columns).Keys + (terms - todo)
        invariant forall u, r {:trigger r in Column(columns, u)} ::
          r in Column(columns, u) <==> r in Column(old(columns), u) || (r == v && u in terms && u !in todo)
        invariant forall u :: u in externalParametricVariables <==>
          u in old(externalParametricVariables) || (u in terms - todo && u.IsExternal())
      {
        var u :| u in todo;
        AddMapping(u, v);
        if u.IsExternal() {
          externalParametricVariables := externalParametricVariables + {u};
        }
        todo := todo - {u};
      }
    }

    /** `addRowForVariable:equalsExpression:` */
    method AddRow(v: Variable, e: Expr)
      requires Awaits(v, e.terms.Keys)
      requires ZeroFree(e) && forall u <- e.terms :: u !in rows && u != v
      modifies this
      ensures Valid()
      ensures rows == old(rows)[v := e]
      ensures columns.Keys == old(columns).Keys + e.terms.Keys
      ensures infeasibleRows == old(infeasibleRows) && objective == old(objective)
    {
      hide Solved;
      hide IndexOf;
      hide ExternalTermsRecorded;
      rows := rows[v := e];
      if v.IsExternal() {
        externalRows := externalRows + {v};
      }
      AddTermVariables(e.terms.Keys, v);
      AddRowIndexed(old(rows), old(columns), v, e, columns);
      AddRowRecorded(old(rows), old(externalParametricVariables), old(columns).Keys, v, e);
      assert externalParametricVariables == old(externalParametricVariables) + Externals(e.terms.Keys);
    }

    /** `removeRowForVariable:`; `raised` stands for the exception on a missing row. */
    method RemoveRow(v: Variable) returns (raised: bool)
      requires Valid()
      modifies this
      ensures Valid()
      ensures raised <==> v !in old(rows)
      ensures rows == old(rows) - {v}
      ensures columns.Keys == old(columns).Keys
      ensures infeasibleRows == old(infeasibleRows) && objective == old(objective)
      ensures externalParametricVariables == old(externalParametricVariables)
    {
      if v !in rows {
        return true;
      }
      var e := rows[v];
      rows := rows - {v};
      externalRows := externalRows - {v};
      RemoveTermVariables(e.terms.Keys, v);
      return false;
    }

    method RemoveTermVariables(terms: set<Variable>, v: Variable)
      modifies this`columns
      ensures columns.Keys == old(columns).Keys
      ensures forall u, r {:trigger r in Column(columns, u)} ::
        r in Column(columns, u) <==> r in Column(old(columns), u) && !(r == v && u in terms)
    {
      var todo := terms;
      while todo != {}
        invariant todo <= terms
        invariant columns.Keys == old(columns).Keys
        invariant forall u, r {:trigger r in Column(columns, u)} ::
          r in Column(columns, u) <==> r in Column(old(columns), u) && !(r == v && u in terms && u !in todo)
      {
        var u :| u in todo;
        RemoveMapping(u, v);
        todo := todo - {u};
      }
    }

    /** `removeColumn:`, which forgets an external variable as a row and not as a parameter. */
    method RemoveColumn(v: Variable)
      requires Valid()
      modifies this
      ensures rows.Keys == old(rows).Keys
      ensures forall r <- rows :: rows[r] == Without(old(rows)[r], v)
      ensures columns == old(columns) - {v}
      ensures Solved(rows) && IndexOf(rows, columns)
      ensures Valid() <==> !v.IsExternal() || (v !in rows && v !in old(externalParametricVariables))
      ensures infeasibleRows == old(infeasibleRows) && objective == old(objective)
    {
      hide Solved;
      hide IndexOutside;
      hide ExternalTermsRecorded;
      ClearColumn(v);
      RemoveColumnIndexed(old(rows), columns, v, rows);
      columns := columns - {v};
      if v.IsExternal() {
        externalRows := externalRows - {v};
      }
      RemoveColumnRecorded(old(rows), externalParametricVariables, old(columns).Keys, v, rows);
      assert ExternalRowsMatch(rows, externalRows) <==> !(v.IsExternal() && v in rows);
    }

    method ClearColumn(v: Variable)
      requires Solved(rows) && IndexOf(rows, columns)
      modifies this`rows
      ensures rows.Keys == old(rows).Keys
      ensures forall r <- rows :: rows[r] == Without(old(rows)[r], v)
    {
      ghost var column := Column(columns, v);
      var todo := Column(columns, v);
      while todo != {}
        invariant todo <= column && rows.Keys == old(rows).Keys
        invariant forall r <- rows :: rows[r] == (if r in column - todo then Without(old(rows)[r], v) else old(rows)[r])
      {
        var r :| r in todo;
        rows := rows[r := Without(rows[r], v)];
        todo := todo - {r};
      }
      forall r <- rows ensures rows[r] == Without(old(rows)[r], v) {
        if r !in column {
          assert old(rows)[r].terms - {v} == old(rows)[r].terms;
        }
      }
    }

    /** `substituteOutTerm:withExpression:inExpression:subject:`, on the row of `subject`. */
    method SubstituteOutTerm(term: Variable, e: Expr, subject: Variable)
      requires subject in rows && ZeroFree(rows[subject]) && term in rows[subject].terms
      requires ZeroFree(e) && term !in e.terms
      requires forall u :: u in rows[subject].terms <==> subject in Column(columns, u)
      modifies this`rows, this`columns
      ensures rows == old(rows)[subject := Substitute(old(rows)[subject], term, e)]
      ensures forall u, r {:trigger r in Column(columns, u)} ::
        r in Column(columns, u) <==>
          if r == subject && u != term then u in rows[subject].terms else r in Column(old(columns), u)
      ensures columns.Keys == old(columns).Keys + e.terms.Keys
    {
      hide SubstitutedCoef;
      var row := rows[subject];
      var added := Scale(e, Coef(row, term));
      ScaleZeroFree(e, Coef(row, term));
      var expression := SubstituteTerms(row, term, added, subject);
      SubstituteCoefs(row, term, e);
      forall t ensures Coef(expression, t) == SubstitutedCoef(row, term, e, t) {
        ScaledCoef(row, term, e, t);
      }
      MulComm(e.constant, Coef(row, term));
      ExprExtensional(expression, Substitute(row, term, e));
      rows := rows[subject := expression];
    }

    /** Replace `term` by the terms of `added`, one at a time. */
    method SubstituteTerms(row: Expr, term: Variable, added: Expr, subject: Variable) returns (expression: Expr)
      requires ZeroFree(row) && term in row.terms && ZeroFree(added) && term !in added.terms
      requires forall u :: u in row.terms <==> subject in Column(columns, u)
      modifies this`columns
      ensures ZeroFree(expression) && expression.constant == row.constant + added.constant
      ensures forall t {:trigger Coef(expression, t)} ::
        Coef(expression, t) == (if t == term then 0.0 else Coef(row, t)) + Coef(added, t)
      ensures forall u, r {:trigger r in Column(columns, u)} ::
        r in Column(columns, u) <==>
          if r == subject && u != term then u in expression.terms else r in Column(old(columns), u)
      ensures columns.Keys == old(columns).Keys + added.terms.Keys
    {
      expression := Expr(row.terms - {term}, row.constant + added.constant);
      var todo := added.terms.Keys;
      while todo != {}
        invariant todo <= added.terms.Keys
        invariant ZeroFree(expression) && expression.constant == row.constant + added.constant
        invariant forall t {:trigger Coef(expression, t)} ::
          Coef(expression, t) == (if t == term then 0.0 else Coef(row, t)) + (if t in todo then 0.0 else Coef(added, t))
        invariant forall u, r {:trigger r in Column(columns, u)} ::
          r in Column(columns, u) <==>
            if r == subject && u != term then u in expression.terms else r in Column(old(columns), u)
        invariant columns.Keys == old(columns).Keys + (added.terms.Keys - todo)
      {
        var t :| t in todo;
        todo := todo - {t};
        expression := SubstituteOutTermInExpression(expression, t, added.terms[t], subject);
      }
    }

    /** Add a non-zero amount to one coefficient, keeping the column of that term exact. */
    method SubstituteOutTermInExpression(expression: Expr, t: Variable, added: real, subject: Variable)
      returns (r: Expr)
      requires ZeroFree(expression) && added != 0.0
      requires t in expression.terms <==> subject in Column(columns, t)
      modifies this`columns
      ensures ZeroFree(r) && r.constant == expression.constant
      ensures forall u {:trigger u in r.terms} :: u != t ==> (u in r.terms <==> u in expression.terms)
      ensures forall u {:trigger Coef(r, u)} :: Coef(r, u) == Coef(expression, u) + (if u == t then added else 0.0)
      ensures columns.Keys == old(columns).Keys + {t}
      ensures forall u, q {:trigger q in Column(columns, u)} ::
        q in Column(columns, u) <==> if u == t && q == subject then t in r.terms else q in Column(old(columns), u)
    {
      if t in expression.terms {
        var coefficient := expression.terms[t] + added;
        if coefficient == 0.0 {
          r := Without(expression, t);
          RemoveMapping(t, subject);
        } else {
          r := With(expression, t, coefficient);
        }
      } else {
        r := With(expression, t, added);
        AddMapping(t, subject);
      }
    }

    /** `substituteOutVariable:forExpression:` */
    method SubstituteOut(v: Variable, e: Expr)
      requires Consistent(e.terms.Keys)
      requires v !in rows && ZeroFree(e) && v !in e.terms && forall u <- e.terms :: u !in rows
      modifies this
      ensures Awaits(v, e.terms.Keys)
      ensures rows == SubstituteAll(old(rows), v, e) && rows.Keys == old(rows).Keys
      ensures old(columns).Keys - {v} <= columns.Keys <= old(columns).Keys + e.terms.Keys
      ensures forall r :: r in infeasibleRows <==>
        r in old(infeasibleRows) ||
        (r in Column(old(columns), v) && r.IsRestricted() && rows[r].constant < 0.0)
      ensures objective == old(objective)
    {
      hide Solved;
      hide IndexOutside;
      hide SubstituteAll;
      hide ExternalTermsRecorded;
      SubstituteAllSolved(rows, v, e);
      SubstituteInColumn(v, e);
      if v.IsExternal() {
        externalRows := externalRows + {v};
      }
      externalParametricVariables := externalParametricVariables - {v};
      DropColumn(rows, columns, v);
      columns := columns - {v};
      SubstituteAllRecorded(old(rows), old(externalParametricVariables), old(columns).Keys, v, e, columns.Keys);
    }

    method SubstituteInColumn(v: Variable, e: Expr)
      requires Solved(rows) && IndexOf(rows, columns)
      requires v !in rows && ZeroFree(e) && v !in e.terms && forall u <- e.terms :: u !in rows
      modifies this`rows, this`columns, this`infeasibleRows
      ensures IndexOutside(rows, columns, {v})
      ensures rows == SubstituteAll(old(rows), v, e) && rows.Keys == old(rows).Keys
      ensures old(columns).Keys <= columns.Keys <= old(columns).Keys + e.terms.Keys
      ensures forall r :: r in infeasibleRows <==>
        r in old(infeasibleRows) ||
        (r in Column(old(columns), v) && r.IsRestricted() && rows[r].constant < 0.0)
    {
      hide Substitute;
      hide IndexOutside;
      ColumnIs(rows, columns, v);
      ghost var before, target := rows, SubstituteAll(rows, v, e);
      var column := Column(columns, v);
      var todo := column;
      while todo != {}
        invariant todo <= column && rows.Keys == before.Keys
        invariant forall r <- rows :: rows[r] == if r in column && r !in todo then target[r] else before[r]
        invariant IndexOutside(rows, columns, {v})
        invariant Column(columns, v) == column
        invariant old(columns).Keys <= columns.Keys <= old(columns).Keys + e.terms.Keys
        invariant forall r :: r in infeasibleRows <==>
          r in old(infeasibleRows) || (r in column && r !in todo && r.IsRestricted() && target[r].constant < 0.0)
      {
        var r :| r in todo;
        todo := todo - {r};
        SubstituteInRow(r, v, e);
      }
      SubstituteElsewhere(before, v, e);
    }

    method SubstituteInRow(r: Variable, v: Variable, e: Expr)
      requires r in rows && ZeroFree(rows[r]) && v in rows[r].terms
      requires IndexOutside(rows, columns, {v}) && r in Column(columns, v)
      requires ZeroFree(e) && v !in e.terms
      modifies this`rows, this`columns, this`infeasibleRows
      ensures rows == old(rows)[r := Substitute(old(rows)[r], v, e)]
      ensures IndexOutside(rows, columns, {v})
      ensures Column(columns, v) == Column(old(columns), v)
      ensures columns.Keys == old(columns).Keys + e.terms.Keys
      ensures infeasibleRows == old(infeasibleRows) + if r.IsRestricted() && rows[r].constant < 0.0 then [r] else []
    {
      hide Substitute;
      hide IndexOutside;
      RowInIndex(rows, columns, v, r);
      SubstituteOutTerm(v, e, r);
      IndexStep(old(rows), old(columns), v, r, rows[r], columns);
      if r.IsRestricted() && rows[r].constant < 0.0 {
        infeasibleRows := infeasibleRows + [r];
      }
    }

    /** The second half of a pivot: `v` is replaced everywhere and gets its own row. */
    method Replace(v: Variable, e: Expr)
      requires Consistent(e.terms.Keys)
      requires v !in rows && ZeroFree(e) && v !in e.terms && forall u <- e.terms :: u !in rows
      modifies this
      ensures Valid()
      ensures rows == SubstituteAll(old(rows), v, e)[v := e]
      ensures objective == old(objective)
      ensures columns.Keys <= old(columns).Keys - {v} + e.terms.Keys
      ensures forall r <- old(infeasibleRows) :: r in infeasibleRows
      ensures forall r <- old(rows) :: r.IsRestricted() && rows[r].constant < 0.0 ==>
        r in infeasibleRows || rows[r] == old(rows)[r]
      ensures forall r <- infeasibleRows :: r in old(infeasibleRows) || r.IsRestricted()
    {
      hide Solved;
      hide IndexOutside;
      hide ExternalTermsRecorded;
      hide SubstituteAll;
      ghost var before, indexed := rows, columns;
      SubstituteOut(v, e);
      PivotListed(before, indexed, v, e);
      AddRow(v, e);
    }

    /** `pivotWithEntryVariable:exitVariable:` */
    method Pivot(entry: Variable, exit: Variable)
      requires Valid() && exit in rows && entry in rows[exit].terms
      modifies this
      ensures Valid()
      ensures rows == RowAlgebra.Pivot(old(rows), entry, exit)
      ensures entry in rows && exit !in rows
      ensures objective == old(objective)
      ensures Known() <= old(Known()) && columns.Keys <= old(columns).Keys + {exit}
      ensures forall r <- old(infeasibleRows) :: r in infeasibleRows
      ensures forall r <- rows :: r.IsRestricted() && r != entry && rows[r].constant < 0.0 ==>
        r in infeasibleRows || (r in old(rows) && rows[r] == old(rows)[r])
      ensures forall r <- infeasibleRows :: r in old(infeasibleRows) || r.IsRestricted()
    {
      hide Solved;
      hide IndexOutside;
      hide ExternalTermsRecorded;
      hide SubstituteAll;
      hide ChangeSubject;
      SolvedRow(rows, exit);
      TermsHaveColumns(rows, columns, exit);
      var row := rows[exit];
      ghost var column := Column(columns, entry);
      var raised := RemoveRow(exit);
      var e := ChangeSubject(row, exit, entry);
      ChangeSubjectSolved(row, exit, entry);
      if exit.IsExternal() {
        externalParametricVariables := externalParametricVariables + {exit};
      }
      PivotRecorded(old(rows), old(externalParametricVariables), columns.Keys, entry, exit, e);
      assert externalParametricVariables ==
        old(externalParametricVariables) + if exit.IsExternal() then {exit} else {};
      Replace(entry, e);
      PivotSolved(old(rows), entry, exit);
    }

    /** `addVariable:toExpression:withCoefficient:subject:`, on the row of `subject`. */
    method AddVariable(v: Variable, coefficient: real, subject: Variable)
      requires Valid() && subject in rows && v !in rows
      modifies this`rows, this`columns, this`externalParametricVariables
      ensures Valid()
      ensures rows == old(rows)[subject := AddTerm(old(rows)[subject], v, coefficient)]
      ensures old(columns).Keys <= columns.Keys <= old(columns).Keys + {v}
      ensures coefficient != 0.0 ==> v in columns
      ensures externalParametricVariables - {v} == old(externalParametricVariables) - {v}
    {
      hide Solved;
      hide IndexOutside;
      hide ExternalRowsMatch;
      hide ExternalTermsRecorded;
      ColumnIs(rows, columns, v);
      var row := rows[subject];
      if v in row.terms {
        var newCoefficient := row.terms[v] + coefficient;
        if newCoefficient == 0.0 {
          rows := rows[subject := Without(row, v)];
          RemoveMapping(v, subject);
        } else {
          SetVariable(v, newCoefficient, subject);
        }
      } else if coefficient != 0.0 {
        SetVariable(v, coefficient, subject);
        AddMapping(v, subject);
      }
      AddTermValid(old(rows), old(columns), subject, v, coefficient, columns);
      AddTermRecorded(old(rows), externalRows, old(externalParametricVariables), old(columns).Keys, subject, v,
        coefficient,
                      externalParametricVariables, columns.Keys);
    }

    method SetVariable(v: Variable, coefficient: real, subject: Variable)
      requires subject in rows
      modifies this`rows, this`externalParametricVariables
      ensures rows == old(rows)[subject := With(old(rows)[subject], v, coefficient)]
      ensures externalParametricVariables == old(externalParametricVariables) + if v.IsExternal() then {v} else {}
    {
      rows := rows[subject := With(rows[subject], v, coefficient)];
      if v.IsExternal() {
        externalParametricVariables := externalParametricVariables + {v};
      }
    }

    /** `addNewExpression:toExpression:n:subject:`, on the row of `subject`. */
    method AddExpression(d: Expr, n: real, subject: Variable)
      requires Valid() && subject in rows && ZeroFree(d)
      requires forall v <- d.terms :: v !in rows && v in columns
      modifies this`rows, this`columns, this`externalParametricVariables
      ensures Valid() && rows.Keys == old(rows).Keys
      ensures forall r <- rows :: r != subject ==> rows[r] == old(rows)[r]
      ensures rows[subject].constant == old(rows)[subject].constant + n * d.constant
      ensures forall t {:trigger Coef(rows[subject], t)} ::
        Coef(rows[subject], t) == Coef(old(rows)[subject], t) + Coef(Scale(d, n), t)
      ensures columns.Keys == old(columns).Keys && objective == old(objective)
    {
      hide IndexOutside;
      hide ExternalTermsRecorded;
      hide ExternalRowsMatch;
      hide Solved;
      hide AddTerm;
      hide Scale;
      ScaleKeys(d, n);
      var constant := rows[subject].constant + n * d.constant;
      SetConstant(subject, constant);
      var added := Scale(d, n);
      var todo := added.terms.Keys;
      while todo != {}
        invariant todo <= added.terms.Keys && Valid() && rows.Keys == old(rows).Keys
        invariant forall r <- rows :: r != subject ==> rows[r] == old(rows)[r]
        invariant rows[subject].constant == constant
        invariant forall t {:trigger Coef(rows[subject], t)} ::
          Coef(rows[subject], t) == Coef(old(rows)[subject], t) + if t in todo then 0.0 else Coef(added, t)
        invariant columns.Keys == old(columns).Keys
      {
        var t :| t in todo;
        todo := todo - {t};
        AddTermCoef(rows[subject], t, added.terms[t]);
        AddVariable(t, added.terms[t], subject);
        RecordUpdatedVariable(t);
      }
    }

    method RecordUpdatedVariable(v: Variable)
      requires Valid() && v !in rows && v in columns
      modifies this`externalParametricVariables
      ensures Valid()
    {
      if v.IsExternal() {
        externalParametricVariables := externalParametricVariables + {v};
      }
    }

    /** `setConstant:` on the expression of a row. */
    method SetConstant(r: Variable, constant: real)
      requires Valid() && r in rows
      modifies this`rows
      ensures Valid()
      ensures rows == old(rows)[r := Expr(old(rows)[r].terms, constant)]
    {
      rows := rows[r := Expr(rows[r].terms, constant)];
    }

    /** `findPivotableExitVariable:`.  Ties go to the row met first: the source would prefer
        the smaller `_id`, but it never assigns ids.  `None` is nil. */
    method FindPivotableExitVariable(entry: Variable) returns (exit: Option<Variable>)
      requires Valid()
      ensures exit.Some? ==> MinRatioExit(rows, entry, exit.value)
      ensures exit.None? ==> forall r <- rows :: r.IsPivotable() ==> Coef(rows[r], entry) >= 0.0
    {
      exit := None;
      var minRatio := 0.0;
      var column := Column(columns, entry);
      ColumnIs(rows, columns, entry);
      var todo := column;
      while todo != {}
        invariant todo <= column
        invariant exit.Some? ==>
          && exit.value in rows && exit.value.IsPivotable() && Coef(rows[exit.value], entry) < 0.0
          && minRatio == Ratio(rows, entry, exit.value)
        invariant forall r <- column - todo :: r.IsPivotable() && Coef(rows[r], entry) < 0.0 ==>
          exit.Some? && minRatio <= Ratio(rows, entry, r)
      {
        var r :| r in todo;
        todo := todo - {r};
        if r.IsPivotable() && Coef(rows[r], entry) < 0.0 {
          var ratio := Ratio(rows, entry, r);
          if exit.None? || ratio < minRatio {
            minRatio, exit := ratio, Some(r);
          }
        }
      }
    }
  }
}
