/** The compiler's single, global symbol table: names to dense slot indices. */
module Symbols {
  import opened Results

  datatype Symbol = Symbol(name: string, index: nat)

  datatype SymbolTable = SymbolTable(store: map<string, Symbol>, numDefinitions: nat)

  /** SymbolTable::new */
  function Empty(): (t: SymbolTable)
    ensures Valid(t) && t.numDefinitions == 0
  {
    SymbolTable(map[], 0)
  }

  /** Every entry is stored under its own name, uses an index already handed
      out, and no two names share an index. */
  ghost predicate Valid(t: SymbolTable)
  {
    && (forall n :: n in t.store ==> t.store[n].name == n && t.store[n].index < t.numDefinitions)
    && (forall n, m :: n in t.store && m in t.store && n != m ==> t.store[n].index != t.store[m].index)
  }

  /** define: the name gets the next unused index; a name defined again gets a
      fresh index that replaces its old entry. */
  function Define(t: SymbolTable, name: string): (r: (SymbolTable, Symbol))
    ensures r.1 == Symbol(name, t.numDefinitions)
    ensures r.0.numDefinitions == t.numDefinitions + 1
    ensures Valid(t) ==> Valid(r.0)
  {
    var sym := Symbol(name, t.numDefinitions);
    (SymbolTable(t.store[name := sym], t.numDefinitions + 1), sym)
  }

  /** resolve: exact-name lookup. */
  function Resolve(t: SymbolTable, name: string): (r: Option<Symbol>)
    ensures r.Some? <==> name in t.store
    ensures Valid(t) && r.Some? ==> r.value.name == name && r.value.index < t.numDefinitions
  {
    if name in t.store then Some(t.store[name]) else None
  }

  /** A table only grows: the definition counter never decreases and a name,
      once defined, stays resolvable. */
  ghost predicate Extends(t: SymbolTable, u: SymbolTable)
  {
    t.numDefinitions <= u.numDefinitions && t.store.Keys <= u.store.Keys
  }

  /** After define, the name resolves to the symbol define returned, and every
      other name resolves as before. */
  lemma DefineResolve(t: SymbolTable, name: string, other: string)
    ensures Resolve(Define(t, name).0, name) == Some(Define(t, name).1)
    ensures other != name ==> Resolve(Define(t, name).0, other) == Resolve(t, other)
    ensures Extends(t, Define(t, name).0)
  {
  }

  /** Two definitions in a row hand out consecutive indices, starting at 0 in
      an empty table, whatever the names. */
  lemma DefineTwice(x: string, y: string)
    ensures Define(Empty(), x).1.index == 0
    ensures Define(Define(Empty(), x).0, y).1.index == 1
    ensures x != y ==> Resolve(Define(Define(Empty(), x).0, y).0, x) == Some(Symbol(x, 0))
    ensures Resolve(Define(Define(Empty(), x).0, y).0, y) == Some(Symbol(y, 1))
  {
  }
}
