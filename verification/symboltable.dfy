/** Symbol tables: binary search trees of symbols with links to their parents, in nested scopes. */
module SymbolTables {
  class Symbol {
    const identifier: nat
    const referent: nat
    var left: Symbol?
    var right: Symbol?
    var parent: Symbol?

    constructor (identifier: nat, referent: nat)
      ensures this.identifier == identifier && this.referent == referent
      ensures left == null && right == null && parent == null
    {
      this.identifier, this.referent := identifier, referent;
      left, right, parent := null, null, null;
    }
  }

  // ---------- the shape of a tree ----------

  datatype Tree = Leaf | Node(left: Tree, symbol: Symbol, right: Tree)

  function Symbols(t: Tree): set<Symbol>
  {
    match t
    case Leaf => {}
    case Node(l, s, r) => Symbols(l) + {s} + Symbols(r)
  }

  ghost predicate Below(t: Tree, k: int)
  {
    forall s :: s in Symbols(t) ==> s.identifier < k
  }

  ghost predicate Above(t: Tree, k: int)
  {
    forall s :: s in Symbols(t) ==> s.identifier > k
  }

  ghost predicate Ordered(t: Tree)
  {
    match t
    case Leaf => true
    case Node(l, s, r) => Below(l, s.identifier) && Above(r, s.identifier) && Ordered(l) && Ordered(r)
  }

  function Root(t: Tree): Symbol?
  {
    if t.Leaf? then null else t.symbol
  }

  /** The links down are those of the tree. */
  ghost predicate Linked(t: Tree)
    reads Symbols(t)`left, Symbols(t)`right
  {
    match t
    case Leaf => true
    case Node(l, n, r) => n.left == Root(l) && n.right == Root(r) && Linked(l) && Linked(r)
  }

  /** The links up are those of the tree, whose root's parent is p. */
  ghost predicate Parents(t: Tree, p: Symbol?)
    reads Symbols(t)`parent
  {
    match t
    case Leaf => true
    case Node(l, n, r) => n.parent == p && Parents(l, n) && Parents(r, n)
  }

  /** Where a search for k leads */
  function Find(t: Tree, k: nat): Symbol?
  {
    match t
    case Leaf => null
    case Node(l, s, r) => if k < s.identifier then Find(l, k) else if k > s.identifier then Find(r, k) else s
  }

  /** In an ordered tree a search finds the one symbol with the identifier, if there is one. */
  lemma {:induction false} FindIsExact(t: Tree, k: nat)
    requires Ordered(t)
    ensures Find(t, k) != null ==> Find(t, k) in Symbols(t) && Find(t, k).identifier == k
    ensures forall s :: s in Symbols(t) && s.identifier == k ==> Find(t, k) == s
  {
    if t.Node? {
      FindIsExact(t.left, k);
      FindIsExact(t.right, k);
    }
  }

  // ---------- replacing the subtree at an identifier ----------

  /** The subtree that a search for k leads to */
  function Sub(t: Tree, k: nat): (sub: Tree)
    ensures Root(sub) == Find(t, k)
    ensures Symbols(sub) <= Symbols(t)
  {
    match t
    case Leaf => Leaf
    case Node(l, n, r) => if k < n.identifier then Sub(l, k) else if k > n.identifier then Sub(r, k) else t
  }

  /** The tree with another subtree where a search for k leads */
  function Replaced(t: Tree, k: nat, sub: Tree): Tree
  {
    match t
    case Leaf => sub
    case Node(l, n, r) =>
      if k < n.identifier then Node(Replaced(l, k, sub), n, r)
      else if k > n.identifier then Node(l, n, Replaced(r, k, sub))
      else sub
  }

  /** The last symbol that a search for k passes, p if it passes none */
  function Over(t: Tree, k: nat, p: Symbol?): (o: Symbol?)
    ensures o == p || (o in Symbols(t) && o.identifier != k)
  {
    match t
    case Leaf => p
    case Node(l, n, r) => if k < n.identifier then Over(l, k, n) else if k > n.identifier then Over(r, k, n) else p
  }

  lemma {:induction false} ReplacedSymbols(t: Tree, k: nat, sub: Tree)
    requires Ordered(t)
    ensures Symbols(Replaced(t, k, sub)) == (Symbols(t) - Symbols(Sub(t, k))) + Symbols(sub)
  {
    if t.Node? {
      var below, above := Symbols(t.left), Symbols(t.right);
      if k < t.symbol.identifier {
        ReplacedSymbols(t.left, k, sub);
        assert Symbols(Sub(t, k)) !! above + {t.symbol};
      } else if k > t.symbol.identifier {
        ReplacedSymbols(t.right, k, sub);
        assert Symbols(Sub(t, k)) !! below + {t.symbol};
      }
    }
  }

  lemma {:induction false} ReplacedKeeps(t: Tree, k: nat, sub: Tree)
    requires Ordered(t) && Ordered(sub)
    requires forall s :: s in Symbols(sub) ==> s in Symbols(Sub(t, k)) || s.identifier == k
    ensures Ordered(Replaced(t, k, sub))
  {
    if t.Node? {
      if k < t.symbol.identifier {
        ReplacedKeeps(t.left, k, sub);
        ReplacedSymbols(t.left, k, sub);
      } else if k > t.symbol.identifier {
        ReplacedKeeps(t.right, k, sub);
        ReplacedSymbols(t.right, k, sub);
      }
    }
  }

  /** The subtree on the other side of that symbol */
  function Aside(t: Tree, k: nat, d: Tree): Tree
  {
    match t
    case Leaf => d
    case Node(l, n, r) => if k < n.identifier then Aside(l, k, r) else if k > n.identifier then Aside(r, k, l) else d
  }

  /** The links down are those of the tree, but possibly those within the subtree at k and those of
      the symbol over it. */
  ghost predicate LinkedAround(t: Tree, k: nat, over: Symbol?)
    reads (Symbols(t) - Symbols(Sub(t, k)) - {over})`left, (Symbols(t) - Symbols(Sub(t, k)) - {over})`right
    requires Ordered(t)
  {
    match t
    case Leaf => true
    case Node(l, n, r) =>
      if k < n.identifier then
        && (n != over ==> n.left == Root(l) && n.right == Root(r))
        && LinkedAround(l, k, over) && over !in Symbols(r) && Linked(r)
      else if k > n.identifier then
        && (n != over ==> n.left == Root(l) && n.right == Root(r))
        && over !in Symbols(l) && Linked(l) && LinkedAround(r, k, over)
      else true
  }

  lemma {:induction false} LinkedThenAround(t: Tree, k: nat, p: Symbol?)
    requires Ordered(t) && Linked(t) && (p == null || p !in Symbols(t))
    ensures LinkedAround(t, k, Over(t, k, p))
  {
    if t.Node? {
      if k < t.symbol.identifier {
        LinkedThenAround(t.left, k, t.symbol);
      } else if k > t.symbol.identifier {
        LinkedThenAround(t.right, k, t.symbol);
      }
    }
  }

  /** The symbol has the subtree at k on its side and the other subtree on the other. */
  ghost predicate Holds(o: Symbol, k: nat, sub: Tree, aside: Tree)
    reads o
  {
    if k < o.identifier then o.left == Root(sub) && o.right == Root(aside)
    else o.right == Root(sub) && o.left == Root(aside)
  }

  /** With the link that leads there set to another subtree, the links are those of the tree with that
      subtree. */
  lemma {:induction false} AroundThenLinked(t: Tree, k: nat, p: Symbol?, d: Tree, sub: Tree)
    requires Ordered(t) && LinkedAround(t, k, Over(t, k, p)) && Linked(sub)
    requires p == null || p !in Symbols(t)
    requires Over(t, k, p) != p ==> Holds(Over(t, k, p), k, sub, Aside(t, k, d))
    ensures Linked(Replaced(t, k, sub))
  {
    if t.Node? {
      if k < t.symbol.identifier {
        OverIs(t.left, k, t.symbol);
        AsideIs(t.left, k, t.symbol, t.right);
        AroundThenLinked(t.left, k, t.symbol, t.right, sub);
      } else if k > t.symbol.identifier {
        OverIs(t.right, k, t.symbol);
        AsideIs(t.right, k, t.symbol, t.left);
        AroundThenLinked(t.right, k, t.symbol, t.left, sub);
      }
    }
  }

  lemma AsideIs(t: Tree, k: nat, p: Symbol?, d: Tree)
    requires p == null || p !in Symbols(t)
    ensures Over(t, k, p) == p ==> Aside(t, k, d) == d
  {
    OverIs(t, k, p);
  }

  /** A search passes no symbol of a tree exactly if it stops at the root. */
  lemma OverIs(t: Tree, k: nat, p: Symbol?)
    requires p == null || p !in Symbols(t)
    ensures Over(t, k, p) == p <==> t.Leaf? || t.symbol.identifier == k
    ensures Over(t, k, p) != p ==> forall sub :: Root(Replaced(t, k, sub)) == Root(t)
  {
  }

  /** The links up are those of the tree outside the subtree at k. */
  ghost predicate ParentsAround(t: Tree, k: nat, p: Symbol?)
    reads (Symbols(t) - Symbols(Sub(t, k)))`parent
    requires Ordered(t)
  {
    match t
    case Leaf => true
    case Node(l, n, r) =>
      if k < n.identifier then n.parent == p && ParentsAround(l, k, n) && Parents(r, n)
      else if k > n.identifier then n.parent == p && Parents(l, n) && ParentsAround(r, k, n)
      else true
  }

  lemma {:induction false} ParentsThenAround(t: Tree, k: nat, p: Symbol?)
    requires Ordered(t) && Parents(t, p)
    ensures ParentsAround(t, k, p) && Parents(Sub(t, k), Over(t, k, p))
  {
    if t.Node? {
      if k < t.symbol.identifier {
        ParentsThenAround(t.left, k, t.symbol);
      } else if k > t.symbol.identifier {
        ParentsThenAround(t.right, k, t.symbol);
      }
    }
  }

  lemma {:induction false} AroundThenParents(t: Tree, k: nat, p: Symbol?, sub: Tree)
    requires Ordered(t) && ParentsAround(t, k, p)
    ensures Parents(Replaced(t, k, sub), p) <==> Parents(sub, Over(t, k, p))
  {
    if t.Node? {
      if k < t.symbol.identifier {
        AroundThenParents(t.left, k, t.symbol, sub);
      } else if k > t.symbol.identifier {
        AroundThenParents(t.right, k, t.symbol, sub);
      }
    }
  }

  /** The symbol over the subtree at k has a link to it on the side of k, and another on the other. */
  lemma {:induction false} OverHolds(t: Tree, k: nat, p: Symbol?, d: Tree)
    requires Ordered(t) && Linked(t) && (p == null || p !in Symbols(t))
    ensures var o := Over(t, k, p); o != p ==>
      && o !in Symbols(Sub(t, k)) && Holds(o, k, Sub(t, k), Aside(t, k, d))
      && (Find(t, k) != null ==> Root(Aside(t, k, d)) != Find(t, k))
  {
    if t.Node? {
      if k < t.symbol.identifier {
        OverIs(t.left, k, t.symbol);
        AsideIs(t.left, k, t.symbol, t.right);
        OverHolds(t.left, k, t.symbol, t.right);
        assert Root(t.right) != null ==> Root(t.right).identifier > t.symbol.identifier;
      } else if k > t.symbol.identifier {
        OverIs(t.right, k, t.symbol);
        AsideIs(t.right, k, t.symbol, t.left);
        OverHolds(t.right, k, t.symbol, t.left);
        assert Root(t.left) != null ==> Root(t.left).identifier < t.symbol.identifier;
      }
    }
  }

  /** A search tree by its links down */
  ghost predicate Sound(t: Tree)
    reads Symbols(t)`left, Symbols(t)`right
  {
    Linked(t) && Ordered(t)
  }

  /** A tree under p by its links up */
  ghost predicate Hangs(t: Tree, p: Symbol?)
    reads Symbols(t)`parent
  {
    Parents(t, p)
  }

  /** All that is left of that while what a search for k leads to is being replaced */
  ghost predicate Open(t: Tree, k: nat, p: Symbol?)
    reads (Symbols(t) - Symbols(Sub(t, k)) - {Over(t, k, p)})`left
    reads (Symbols(t) - Symbols(Sub(t, k)) - {Over(t, k, p)})`right
    reads (Symbols(t) - Symbols(Sub(t, k)))`parent
  {
    Ordered(t) && LinkedAround(t, k, Over(t, k, p)) && ParentsAround(t, k, p)
  }

  class Table {
    var parent: Table?
    var symbols: Symbol?
    ghost var tree: Tree
    ghost var nodes: set<Symbol>

    ghost predicate Searchable()
      reads this, Symbols(tree)
    {
      symbols == Root(tree) && Sound(tree) && nodes == Symbols(tree)
    }

    ghost predicate Valid()
      reads this, Symbols(tree)
    {
      Searchable() && Hangs(tree, null)
    }

    constructor (parent: Table?)
      ensures Valid() && tree == Leaf && this.parent == parent
    {
      this.parent, symbols, tree, nodes := parent, null, Leaf, {};
    }

    /** The inner loop of symbol_lookup */
    method Search(k: nat) returns (s: Symbol?)
      requires Searchable()
      ensures Searchable() && s == Find(tree, k)
      ensures Hangs(tree, null) <==> old(Hangs(tree, null))
    {
      s := symbols;
      ghost var sub := tree;
      while s != null
        invariant s == Root(sub) && Linked(sub) && Find(sub, k) == Find(tree, k)
        decreases sub
      {
        if k < s.identifier {
          s, sub := s.left, sub.left;
        } else if k > s.identifier {
          s, sub := s.right, sub.right;
        } else {
          return;
        }
      }
    }

    /** The loop of _symboltable_insert: walks down to where a new symbol goes, unless it meets the
        identifier on the way. */
    method Descend(k: nat) returns (at: Symbol, there: bool)
      requires Valid() && symbols != null
      ensures Valid() && at in Symbols(tree) && there == (Find(tree, k) != null)
      ensures !there ==> at == Over(tree, k, null) && Sub(tree, k) == Leaf && at.identifier != k
    {
      at := symbols;
      ghost var sub, p: Symbol? := tree, null;
      while true
        invariant sub.Node? && at == sub.symbol && Linked(sub) && Symbols(sub) <= Symbols(tree)
        invariant Sub(sub, k) == Sub(tree, k) && Over(sub, k, p) == Over(tree, k, null)
        decreases sub
      {
        if k < at.identifier {
          if at.left == null {
            return at, false;
          }
          p, at, sub := at, at.left, sub.left;
        } else if k > at.identifier {
          if at.right == null {
            return at, false;
          }
          p, at, sub := at, at.right, sub.right;
        } else {
          return at, true;
        }
      }
    }

    /** _symboltable_insert: refuses an identifier that is there, and changes nothing then. */
    method Insert(symbol: Symbol) returns (ok: bool)
      requires Valid() && symbol !in Symbols(tree) && symbol.left == null && symbol.right == null
      requires symbol.parent == null
      modifies this`symbols, this`tree, this`nodes, Symbols(tree), symbol
      ensures Valid() && ok == (Find(old(tree), symbol.identifier) == null)
      ensures ok ==> Symbols(tree) == old(Symbols(tree)) + {symbol}
      ensures !ok ==> tree == old(tree) && symbol.left == null && symbol.right == null && symbol.parent == null
    {
      hide Sound, Hangs, Open, Over, Sub, Replaced;
      ghost var k, one := symbol.identifier, Node(Leaf, symbol, Leaf);
      OneSymbol(symbol);
      if symbols == null {
        symbols, tree, nodes := symbol, one, {symbol};
        return true;
      }
      var at, there := Descend(symbol.identifier);
      if there {
        return false;
      }
      Around(tree, k, null);
      if symbol.identifier < at.identifier {
        at.left := symbol;
      } else {
        at.right := symbol;
      }
      symbol.parent := at;
      OneSymbol(symbol);
      Grafted(tree, k, null, one);
      tree, ok := Replaced(tree, k, one), true;
      nodes := Symbols(tree);
    }

    /** symbol_undefine of a symbol with at most one child: the child takes its place. Only at the top
        of the tree does the child learn who its parent is. */
    method Promote(symbol: Symbol, child: Symbol?, k: nat, ghost sub: Tree)
      requires Valid() && symbol == Find(tree, k) && child == Root(sub)
      requires Sub(tree, k) == Node(sub, symbol, Leaf) || Sub(tree, k) == Node(Leaf, symbol, sub)
      modifies this`symbols, this`tree, this`nodes, Symbols(tree)
      ensures Searchable() && Symbols(tree) == old(Symbols(tree)) - {symbol}
      ensures Hangs(tree, null) <==> child == null || old(symbol.parent) == null
    {
      hide Sound, Hangs, Open, Over, Replaced, Aside, Sub, Find, Inside, Symbols;
      ghost var all := tree;
      OnlyChild(tree, k, symbol, sub);
      Around(tree, k, null);
      if symbol.parent == null && child != null {
        child.parent := null;
      }
      if symbol.parent == null {
        symbols := child;
      } else if symbol.parent.left == symbol {
        symbol.parent.left := child;
      } else if symbol.parent.right == symbol {
        symbol.parent.right := child;
      }
      Rehung(sub, Over(all, k, null));
      Grafted(all, k, null, sub);
      tree := Replaced(all, k, sub);
      nodes := Symbols(tree);
    }

    /** The child on the inner side takes the replacement's place. */
    method PullOut(replacement: Symbol, fromLeft: bool, k: nat, ghost p: Symbol, ghost side: Tree, ghost other: Tree)
      requires Open(tree, k, null) && Sound(side) && Hangs(side, p) && p !in Symbols(side) && Sound(other)
      requires Inside(other)
      requires Symbols(side) <= Symbols(Sub(tree, k)) && Over(tree, k, null) !in Symbols(side)
      requires Symbols(side) !! Symbols(other)
      requires side.Node? && replacement == Extreme(side, fromLeft) && replacement != side.symbol
      requires Inner(side, fromLeft).Node?
      modifies Symbols(side)
      ensures Open(tree, k, null) && Sound(other) && Inside(other)
      ensures Sound(Cut(side, fromLeft)) && Inside(Cut(side, fromLeft)) && Root(Cut(side, fromLeft)) == side.symbol
    {
      hide Sound, Hangs, Open, Inside, Over, Replaced, Aside, Sub, Find, Extreme, Inner, Symbols;
      ghost var inner := Inner(side, fromLeft);
      ExtremeHangs(side, p, fromLeft);
      RootIn(inner);
      var join := replacement.parent;
      if fromLeft {
        join.right := replacement.left;
        join.right.parent := join;
      } else {
        join.left := replacement.right;
        join.left.parent := join;
      }
      Rehung(inner, join);
      Grafted(side, replacement.identifier, p, inner);
      HangsInside(Cut(side, fromLeft), p);
    }

    /** The replacement takes over the symbol's children and its parent. */
    method Adopt(symbol: Symbol, replacement: Symbol, k: nat, ghost l: Tree, ghost r: Tree)
      requires Open(tree, k, null)
      requires Sound(l) && Inside(l) && Sound(r) && Inside(r) && symbol.left == Root(l) && symbol.right == Root(r)
      requires Ordered(Node(l, replacement, r)) && Symbols(l) !! Symbols(r) && replacement !in Symbols(l) + Symbols(r)
      requires Symbols(l) + Symbols(r) + {replacement} <= Symbols(Sub(tree, k)) - {symbol}
      requires Over(tree, k, null) !in Symbols(Sub(tree, k))
      modifies Symbols(l), Symbols(r), replacement
      ensures Open(tree, k, null) && Sound(Node(l, replacement, r)) && Hangs(Node(l, replacement, r), symbol.parent)
      ensures replacement.parent == symbol.parent
      ensures Symbols(Node(l, replacement, r)) == Symbols(l) + Symbols(r) + {replacement}
    {
      hide Sound, Hangs, Open, Inside, Over, Sub, Symbols, Ordered;
      RootIn(l);
      RootIn(r);
      replacement.left := symbol.left;
      if replacement.left != null {
        replacement.left.parent := replacement;
      }
      replacement.right := symbol.right;
      if replacement.right != null {
        replacement.right.parent := replacement;
      }
      replacement.parent := symbol.parent;
      Rehung(l, replacement);
      Rehung(r, replacement);
      JoinedHangs(l, replacement, r);
    }

    /** The replacement takes the symbol's place. */
    method PutIn(symbol: Symbol, replacement: Symbol, k: nat, ghost l: Tree, ghost r: Tree)
      requires symbols == Root(tree) && Open(tree, k, null) && symbol == Find(tree, k)
      requires Sound(l) && Inside(l) && Sound(r) && Inside(r) && symbol.left == Root(l) && symbol.right == Root(r)
      requires Ordered(Node(l, replacement, r)) && Symbols(l) !! Symbols(r) && replacement !in Symbols(l) + Symbols(r)
      requires Symbols(l) + Symbols(r) + {replacement} == Symbols(Sub(tree, k)) - {symbol}
      requires symbol in Symbols(Sub(tree, k))
      requires symbol.parent == Over(tree, k, null) && symbol.parent !in Symbols(Sub(tree, k))
      requires symbol.parent != null ==>
        Holds(symbol.parent, k, Sub(tree, k), Aside(tree, k, Leaf)) && Root(Aside(tree, k, Leaf)) != symbol
      requires Symbols(Sub(tree, k)) <= Symbols(tree) && (symbol.parent != null ==> symbol.parent in Symbols(tree))
      modifies this`symbols, this`tree, this`nodes, Symbols(tree)
      ensures Valid() && Symbols(tree) == old(Symbols(tree)) - {symbol}
    {
      hide Sound, Hangs, Open, Inside, Over, Replaced, Aside, Sub, Find, Ordered, Symbols;
      ghost var all, joined := tree, Node(l, replacement, r);
      Adopt(symbol, replacement, k, l, r);
      if replacement.parent == null {
        symbols := replacement;
      } else if replacement.parent.left == symbol {
        replacement.parent.left := replacement;
      } else if replacement.parent.right == symbol {
        replacement.parent.right := replacement;
      }
      Grafted(all, k, null, joined);
      tree := Replaced(all, k, joined);
      nodes := Symbols(tree);
    }

    /** Looks for a replacement as far as the links go to one side. */
    method Farthest(from: Symbol, right: bool, ghost t: Tree) returns (s: Symbol)
      requires Valid() && t.Node? && Sound(t) && from == t.symbol
      ensures Valid() && s == Extreme(t, right)
    {
      s := from;
      ghost var sub := t;
      while (if right then s.right else s.left) != null
        invariant sub.Node? && Linked(sub) && s == sub.symbol && Extreme(sub, right) == Extreme(t, right)
        decreases sub
      {
        if right {
          s, sub := s.right, sub.right;
        } else {
          s, sub := s.left, sub.left;
        }
      }
    }

    /** What the same statements do when the replacement is a child of the symbol itself: it becomes its
        own child. */
    method TieUp(symbol: Symbol, replacement: Symbol, k: nat, fromLeft: bool)
      requires Open(tree, k, null) && symbol.parent == Over(tree, k, null)
      requires symbol in Symbols(Sub(tree, k)) && symbol.left in Symbols(Sub(tree, k))
      requires symbol.right in Symbols(Sub(tree, k))
      requires (if fromLeft then replacement.left else replacement.right) in Symbols(Sub(tree, k))
      requires symbol.left != null && symbol.right != null && replacement.parent == symbol
      requires replacement == (if fromLeft then symbol.left else symbol.right) != symbol
      requires (if fromLeft then replacement.left else replacement.right) != null
      requires symbol.parent != symbol && symbol.parent != symbol.left && symbol.parent != symbol.right
      requires (if fromLeft then replacement.left else replacement.right) != symbol && symbol.left != symbol
      requires symbol.right != symbol
      modifies symbol, symbol.left, symbol.right
      modifies (if fromLeft then {replacement.left} else {replacement.right})`parent
      ensures Open(tree, k, null) && replacement.parent == symbol.parent == old(symbol.parent)
      ensures replacement.left == replacement || replacement.right == replacement
    {
      hide Open, Over, Sub, Symbols;
      if fromLeft {
        symbol.right := replacement.left;
        symbol.right.parent := symbol;
      } else {
        symbol.left := replacement.right;
        symbol.left.parent := symbol;
      }
      replacement.left := symbol.left;
      if replacement.left != null {
        replacement.left.parent := replacement;
      }
      replacement.right := symbol.right;
      if replacement.right != null {
        replacement.right.parent := replacement;
      }
      replacement.parent := symbol.parent;
    }

    /** symbol_undefine, for either outcome of the random choice; not ok means that it writes through a
        null pointer. */
    method Undefine(k: nat, fromLeft: bool) returns (ok: bool)
      requires Valid()
      modifies this`symbols, this`tree, this`nodes, Symbols(tree)
      ensures Works(Sub(old(tree), k), fromLeft) ==> ok && Searchable()
      ensures Works(Sub(old(tree), k), fromLeft) ==>
        Symbols(tree) == old(Symbols(tree)) - set s | s in old(Symbols(tree)) && s.identifier == k
      ensures Works(Sub(old(tree), k), fromLeft) ==>
        (Valid() <==> !(OneChild(Sub(old(tree), k)) && Over(old(tree), k, null) != null))
      ensures !Works(Sub(old(tree), k), fromLeft) && ok ==> forall t :: symbols == Root(t) ==> !Linked(t)
    {
      hide Sound, Hangs, Open, Inside, Over, Replaced, Aside, Sub, Extreme, Inner;
      var symbol := Search(k);
      ghost var all, sub := tree, Sub(tree, k);
      Bound(all, k);
      if symbol == null {
        return true;
      }
      TwoChildren(all, k, sub.left, symbol, sub.right);
      if symbol.left != null && symbol.right != null {
        ok := Replace(symbol, k, fromLeft, sub.left, sub.right);
      } else if symbol.left != null {
        Promote(symbol, symbol.left, k, sub.left);
        ok := true;
      } else {
        Promote(symbol, symbol.right, k, sub.right);
        ok := true;
      }
    }

    method Replace(symbol: Symbol, k: nat, fromLeft: bool, ghost l: Tree, ghost r: Tree) returns (ok: bool)
      requires Valid() && Sub(tree, k) == Node(l, symbol, r) && l.Node? && r.Node?
      modifies this`symbols, this`tree, this`nodes, Symbols(tree)
      ensures Works(Node(l, symbol, r), fromLeft) ==> ok && Valid() && Symbols(tree) == old(Symbols(tree)) - {symbol}
      ensures !Works(Node(l, symbol, r), fromLeft) && ok ==> forall t :: symbols == Root(t) ==> !Linked(t)
    {
      hide Sound, Hangs, Open, Inside, Over, Aside, Sub, Extreme, Inner;
      ghost var side := if fromLeft then l else r;
      TwoChildren(tree, k, l, symbol, r);
      var replacement := Farthest(if fromLeft then symbol.left else symbol.right, fromLeft, side);
      TwoChildren(tree, k, l, symbol, r);
      ExtremeHangs(side, symbol, fromLeft);
      var join, inner := replacement.parent, if fromLeft then replacement.left else replacement.right;
      if inner == null {
        if fromLeft {
          join.right := null;
        } else {
          join.left := null;
        }
        ok := false;
      } else if join != symbol {
        Exchange(symbol, replacement, k, fromLeft, l, r);
        ok := true;
      } else {
        Corrupt(symbol, replacement, k, fromLeft, l, r);
        ok := true;
      }
    }

    /** The replacement is neither of the symbol's children and has a child on its inner side. */
    method Exchange(symbol: Symbol, replacement: Symbol, k: nat, fromLeft: bool, ghost l: Tree, ghost r: Tree)
      requires Valid() && Sub(tree, k) == Node(l, symbol, r) && l.Node? && r.Node?
      requires replacement == Extreme(if fromLeft then l else r, fromLeft) && Works(Node(l, symbol, r), fromLeft)
      modifies this`symbols, this`tree, this`nodes, Symbols(tree)
      ensures Valid() && Symbols(tree) == old(Symbols(tree)) - {symbol}
    {
      hide Sound, Hangs, Open, Inside, Over, Aside, Sub, Extreme, Inner;
      TwoChildren(tree, k, l, symbol, r);
      Around(tree, k, null);
      JoinedIs(l, symbol, r, fromLeft);
      if fromLeft {
        PullOut(replacement, true, k, symbol, l, r);
        PutIn(symbol, replacement, k, Cut(l, true), r);
      } else {
        PullOut(replacement, false, k, symbol, r, l);
        PutIn(symbol, replacement, k, l, Cut(r, false));
      }
    }

    /** The replacement is a child of the symbol: what the table then links to is no tree. */
    method Corrupt(symbol: Symbol, replacement: Symbol, k: nat, fromLeft: bool, ghost l: Tree, ghost r: Tree)
      requires Valid() && Sub(tree, k) == Node(l, symbol, r) && l.Node? && r.Node?
      requires var side := if fromLeft then l else r;
        replacement == side.symbol == Extreme(side, fromLeft) && Inner(side, fromLeft).Node?
      modifies this`symbols, Symbols(tree)
      ensures forall t :: symbols == Root(t) ==> !Linked(t)
    {
      hide Sound, Hangs, Open, Inside, Over, Aside, Sub, Extreme, Inner;
      TwoChildren(tree, k, l, symbol, r);
      Around(tree, k, null);
      ExtremeHangs(if fromLeft then l else r, symbol, fromLeft);
      TieUp(symbol, replacement, k, fromLeft);
      if replacement.parent == null {
        symbols := replacement;
      } else if replacement.parent.left == symbol {
        replacement.parent.left := replacement;
      } else if replacement.parent.right == symbol {
        replacement.parent.right := replacement;
      }
      forall t | symbols == Root(t)
        ensures !Linked(t)
      {
        if Linked(t) {
          NoTree(tree, k, null, replacement, t);
        }
      }
    }

    /** symbol_lookup: this scope, then its parent, and so on outwards */
    method Lookup(k: nat, ghost scopes: seq<Table>) returns (s: Symbol?)
      requires scopes != [] && scopes[0] == this && Nested(scopes)
      requires forall i :: 0 <= i < |scopes| ==> scopes[i].Searchable()
      ensures s == Innermost(scopes, k)
      ensures s != null ==> exists i: nat :: IsBinding(scopes, i, k, s)
      ensures s == null ==> forall i :: 0 <= i < |scopes| ==> Unbound(scopes[i].tree, k)
    {
      hide Sound, IsBinding, Unbound;
      var scope: Table? := this;
      ghost var i := 0;
      assert scopes[0..] == scopes;
      while scope != null
        invariant i <= |scopes| && scope == (if i < |scopes| then scopes[i] else null)
        invariant Innermost(scopes, k) == Innermost(scopes[i..], k)
        decreases |scopes| - i
      {
        var outer := scope.parent;
        assert outer == if i + 1 < |scopes| then scopes[i + 1] else null;
        s := scope.Search(k);
        if s != null {
          SearchableOrdered(scopes);
          InnermostIs(scopes, k);
          return;
        }
        assert scopes[i..][1..] == scopes[i + 1..];
        scope, i := outer, i + 1;
      }
      SearchableOrdered(scopes);
      InnermostIs(scopes, k);
      s := null;
    }

    /** symbol_define: a new binding in this scope alone, unless the identifier is bound here. Nothing
        else changes, neither here nor further out. */
    method Define(identifier: nat, referent: nat, ghost scopes: seq<Table>) returns (symbol: Symbol?)
      requires scopes != [] && scopes[0] == this && Nested(scopes) && Valid()
      requires forall i :: 0 < i < |scopes| ==>
        scopes[i] != this && scopes[i].Searchable() && Symbols(scopes[i].tree) !! Symbols(tree)
      modifies this`symbols, this`tree, this`nodes, Symbols(tree)
      ensures Valid() && (symbol == null <==> old(Find(tree, identifier)) != null)
      ensures symbol != null ==> fresh(symbol) && symbol.identifier == identifier && symbol.referent == referent
      ensures symbol != null ==>
        Symbols(tree) == old(Symbols(tree)) + {symbol} && Innermost(scopes, identifier) == symbol
      ensures forall k :: symbol == null || k != identifier ==> Innermost(scopes, k) == old(Innermost(scopes, k))
      ensures forall k :: Innermost(scopes[1..], k) == old(Innermost(scopes[1..], k))
      ensures Nested(scopes) && forall i :: 0 < i < |scopes| ==>
        scopes[i].Searchable() && Symbols(scopes[i].tree) !! Symbols(tree)
    {
      hide Linked, Parents;
      ghost var was := tree;
      var made := new Symbol(identifier, referent);
      var ok := Insert(made);
      symbol := if ok then made else null;
      forall k: nat
        ensures Innermost(scopes[1..], k) == old(Innermost(scopes[1..], k))
      {
      }
      if ok {
        FindsAdded(was, tree, made);
      }
    }
  }

  ghost predicate Nested(scopes: seq<Table>)
    reads scopes
  {
    forall i :: 0 <= i < |scopes| ==> scopes[i].parent == if i + 1 < |scopes| then scopes[i + 1] else null
  }

  /** The binding of the innermost scope that has one */
  ghost function Innermost(scopes: seq<Table>, k: nat): Symbol?
    reads scopes
  {
    if scopes == [] then null
    else if Find(scopes[0].tree, k) != null then Find(scopes[0].tree, k)
    else Innermost(scopes[1..], k)
  }

  /** No symbol of the tree has the identifier. */
  ghost predicate Unbound(t: Tree, k: nat)
  {
    forall s :: s in Symbols(t) ==> s.identifier != k
  }

  /** The i-th scope binds k to s, and none further in binds it. */
  ghost predicate IsBinding(scopes: seq<Table>, i: nat, k: nat, s: Symbol)
    reads scopes
  {
    && i < |scopes| && s in Symbols(scopes[i].tree) && s.identifier == k
    && forall j :: 0 <= j < i ==> Unbound(scopes[j].tree, k)
  }

  lemma SearchableOrdered(scopes: seq<Table>)
    requires forall i :: 0 <= i < |scopes| ==> scopes[i].Searchable()
    ensures forall i :: 0 <= i < |scopes| ==> Ordered(scopes[i].tree)
  {
  }

  /** Where there are bindings, the innermost one is that of the first scope that has one. */
  lemma {:induction false} InnermostIs(scopes: seq<Table>, k: nat)
    requires forall i :: 0 <= i < |scopes| ==> Ordered(scopes[i].tree)
    ensures Innermost(scopes, k) != null ==> exists i: nat :: IsBinding(scopes, i, k, Innermost(scopes, k))
    ensures Innermost(scopes, k) == null ==> forall i :: 0 <= i < |scopes| ==> Unbound(scopes[i].tree, k)
  {
    hide Ordered;
    if scopes != [] {
      FindIsExact(scopes[0].tree, k);
      var s, rest := Innermost(scopes, k), scopes[1..];
      if Find(scopes[0].tree, k) != null {
        assert IsBinding(scopes, 0, k, s);
      } else {
        assert Unbound(scopes[0].tree, k);
        InnermostIs(rest, k);
        if s != null {
          var i: nat :| IsBinding(rest, i, k, s);
          assert forall j :: 0 < j < |scopes| ==> scopes[j] == rest[j - 1];
          assert IsBinding(scopes, i + 1, k, s);
        }
      }
    }
  }

  /** With one more symbol, searches find that one and otherwise what they found. */
  lemma FindsAdded(was: Tree, now: Tree, symbol: Symbol)
    requires Ordered(was) && Ordered(now) && Symbols(now) == Symbols(was) + {symbol}
    requires Find(was, symbol.identifier) == null
    ensures forall k: nat :: Find(now, k) == if k == symbol.identifier then symbol else Find(was, k)
  {
    forall k: nat
      ensures Find(now, k) == if k == symbol.identifier then symbol else Find(was, k)
    {
      FindIsExact(was, k);
      FindIsExact(now, k);
    }
  }

  predicate OneChild(sub: Tree)
  {
    sub.Node? && sub.left.Node? != sub.right.Node?
  }

  /** The one symbol that undefining k removes */
  lemma Bound(t: Tree, k: nat)
    requires Sound(t)
    ensures (Find(t, k) == null) == Sub(t, k).Leaf?
    ensures (set s | s in Symbols(t) && s.identifier == k) == if Find(t, k) == null then {} else {Find(t, k)}
  {
    FindIsExact(t, k);
  }

  /** When symbol_undefine does what it should: the symbol has at most one child, or its replacement is
      neither of its children and has a child on its inner side. */
  predicate Works(sub: Tree, fromLeft: bool)
  {
    sub.Leaf? || sub.left.Leaf? || sub.right.Leaf? ||
    var side := if fromLeft then sub.left else sub.right;
    Extreme(side, fromLeft) != side.symbol && Inner(side, fromLeft).Node?
  }

  /** No tree has a symbol that is its own child at its root. */
  lemma {:induction false} NoSelfLoop(t: Tree, s: Symbol)
    requires Linked(t) && Root(t) == s
    ensures s.left != s && s.right != s
  {
    if s.left == s {
      NoSelfLoop(t.left, s);
    }
    if s.right == s {
      NoSelfLoop(t.right, s);
    }
  }

  /** Nor has any tree one further down, where a search for k leads. */
  lemma {:induction false} NoTree(t: Tree, k: nat, p: Symbol?, s: Symbol, other: Tree)
    requires Open(t, k, p) && (p == null || p !in Symbols(t))
    requires Over(t, k, p) != p ==>
      (if k < Over(t, k, p).identifier then Over(t, k, p).left else Over(t, k, p).right) == s
    requires Root(other) == (if Over(t, k, p) == p then s else Root(t)) && Linked(other)
    ensures s.left != s && s.right != s
  {
    OverIs(t, k, p);
    if Over(t, k, p) == p {
      NoSelfLoop(other, s);
    } else if k < t.symbol.identifier {
      OverIs(t.left, k, t.symbol);
      NoTree(t.left, k, t.symbol, s, other.left);
    } else {
      OverIs(t.right, k, t.symbol);
      NoTree(t.right, k, t.symbol, s, other.right);
    }
  }

  lemma JoinedHangs(l: Tree, s: Symbol, r: Tree)
    requires Sound(l) && Sound(r) && Ordered(Node(l, s, r)) && Hangs(l, s) && Hangs(r, s) && s.left == Root(l)
    requires s.right == Root(r)
    ensures Sound(Node(l, s, r)) && Hangs(Node(l, s, r), s.parent)
    ensures Symbols(Node(l, s, r)) == Symbols(l) + Symbols(r) + {s}
  {
  }

  lemma RootIn(t: Tree)
    ensures t.Node? <==> Root(t) != null
    ensures t.Node? ==> Root(t) in Symbols(t)
  {
  }

  // ---------- the symbol that takes the place of one with two children ----------

  /** The last symbol on the way to the right, or to the left */
  function Extreme(t: Tree, right: bool): Symbol
    requires t.Node?
  {
    if right then if t.right.Leaf? then t.symbol else Extreme(t.right, right)
    else if t.left.Leaf? then t.symbol else Extreme(t.left, right)
  }

  /** The subtree that the extreme symbol has on its inner side */
  function Inner(t: Tree, right: bool): Tree
    requires t.Node?
  {
    if right then if t.right.Leaf? then t.left else Inner(t.right, right)
    else if t.left.Leaf? then t.right else Inner(t.left, right)
  }

  /** The extreme symbol is where a search for it leads, and is greater (or less) than all others. */
  lemma {:induction false} ExtremeIs(t: Tree, right: bool)
    requires t.Node? && Ordered(t)
    ensures var m, inner := Extreme(t, right), Inner(t, right);
      && m in Symbols(t) && m !in Symbols(inner) && Symbols(inner) <= Symbols(t)
      && Sub(t, m.identifier) == (if right then Node(inner, m, Leaf) else Node(Leaf, m, inner))
      && (forall s :: s in Symbols(t) && s != m ==>
            if right then s.identifier < m.identifier else s.identifier > m.identifier)
  {
    if right && t.right.Node? {
      ExtremeIs(t.right, right);
    } else if !right && t.left.Node? {
      ExtremeIs(t.left, right);
    }
  }

  /** The tree without its extreme symbol */
  function Cut(t: Tree, right: bool): Tree
    requires t.Node?
  {
    Replaced(t, Extreme(t, right).identifier, Inner(t, right))
  }

  /** Joining two subtrees under the extreme symbol of one of them keeps order and symbols. */
  function Joined(l: Tree, r: Tree, fromLeft: bool): Tree
    requires l.Node? && r.Node?
  {
    if fromLeft then Node(Cut(l, true), Extreme(l, true), r) else Node(l, Extreme(r, false), Cut(r, false))
  }

  lemma CutIs(t: Tree, right: bool)
    requires t.Node? && Ordered(t)
    ensures Ordered(Inner(t, right)) && Ordered(Cut(t, right))
    ensures Symbols(Cut(t, right)) == Symbols(t) - {Extreme(t, right)}
  {
    var m, inner := Extreme(t, right), Inner(t, right);
    ExtremeIs(t, right);
    SubIsOrdered(t, m.identifier);
    ReplacedKeeps(t, m.identifier, inner);
    ReplacedSymbols(t, m.identifier, inner);
  }

  lemma {:induction false} SubIsOrdered(t: Tree, k: nat)
    requires Ordered(t)
    ensures Ordered(Sub(t, k))
  {
    if t.Node? {
      SubIsOrdered(t.left, k);
      SubIsOrdered(t.right, k);
    }
  }

  lemma JoinedIs(l: Tree, symbol: Symbol, r: Tree, fromLeft: bool)
    requires l.Node? && r.Node? && Ordered(Node(l, symbol, r))
    ensures Ordered(Joined(l, r, fromLeft)) && Symbols(Joined(l, r, fromLeft)) == Symbols(l) + Symbols(r)
  {
    var side := if fromLeft then l else r;
    ExtremeIs(side, fromLeft);
    CutIs(side, fromLeft);
    assert forall s :: s in Symbols(l) ==> s.identifier < symbol.identifier;
    assert forall s :: s in Symbols(r) ==> s.identifier > symbol.identifier;
  }

  lemma HangsInside(t: Tree, p: Symbol?)
    requires Sound(t) && Hangs(t, p)
    ensures Inside(t) && (t.Node? ==> t.symbol.parent == p)
  {
  }

  lemma HangsBelow(t: Tree, p: Symbol?)
    requires t.Node? && Sound(t) && Hangs(t, p)
    ensures t.symbol.parent == p && t.symbol.left == Root(t.left) && t.symbol.right == Root(t.right)
    ensures Sound(t.left) && Sound(t.right) && Hangs(t.left, t.symbol) && Hangs(t.right, t.symbol)
    ensures Inside(t.left) && Inside(t.right)
  {
    HangsInside(t.left, t.symbol);
    HangsInside(t.right, t.symbol);
  }

  /** A symbol with two children, before it is undefined */
  lemma TwoChildren(t: Tree, k: nat, l: Tree, symbol: Symbol, r: Tree)
    requires Sound(t) && Hangs(t, null) && Sub(t, k) == Node(l, symbol, r)
    ensures Sound(l) && Sound(r) && Inside(l) && Inside(r) && Hangs(l, symbol) && Hangs(r, symbol)
    ensures symbol.left == Root(l) && symbol.right == Root(r) && Ordered(Node(l, symbol, r))
    ensures symbol !in Symbols(l) && symbol !in Symbols(r) && Symbols(l) !! Symbols(r)
    ensures symbol.parent == Over(t, k, null) && symbol.parent != symbol
  {
    hide Hangs, Inside, Open;
    Around(t, k, null);
    FindIsExact(t, k);
    HangsBelow(Sub(t, k), Over(t, k, null));
  }

  /** The extreme symbol of a subtree, the one above it, and what it has on its inner side */
  lemma ExtremeHangs(t: Tree, p: Symbol, right: bool)
    requires t.Node? && Sound(t) && Hangs(t, p) && p !in Symbols(t)
    ensures var m, inner := Extreme(t, right), Inner(t, right); var join := Over(t, m.identifier, p);
      && Open(t, m.identifier, p) && Sound(inner) && Inside(inner) && m.parent == join
      && (if right then m.left else m.right) == Root(inner) && (inner.Node? ==> inner.symbol.parent == m)
      && m in Symbols(t) && m !in Symbols(inner) && Symbols(inner) <= Symbols(t) && join != m
      && Symbols(Sub(t, m.identifier)) == Symbols(inner) + {m}
      && (join == p <==> m == t.symbol)
      && (join != p ==> join in Symbols(t) && join !in Symbols(inner)
                        && Holds(join, m.identifier, Sub(t, m.identifier), Aside(t, m.identifier, Leaf))
                        && if right then join.identifier < m.identifier else join.identifier > m.identifier)
  {
    hide Hangs, Inside, Open;
    var m := Extreme(t, right);
    ExtremeIs(t, right);
    Around(t, m.identifier, p);
    HangsBelow(Sub(t, m.identifier), Over(t, m.identifier, p));
    HangsInside(Inner(t, right), m);
    OverIs(t, m.identifier, p);
  }

  /** The only child of a symbol and what is below it */
  lemma OnlyChild(t: Tree, k: nat, symbol: Symbol, sub: Tree)
    requires Sound(t) && Hangs(t, null) && symbol == Find(t, k)
    requires Sub(t, k) == Node(sub, symbol, Leaf) || Sub(t, k) == Node(Leaf, symbol, sub)
    ensures Sound(sub) && Hangs(sub, symbol) && Inside(sub) && symbol !in Symbols(sub)
    ensures Symbols(sub) <= Symbols(Sub(t, k)) && Symbols(Sub(t, k)) == Symbols(sub) + {symbol}
    ensures symbol.parent == Over(t, k, null) && symbol.parent != symbol
    ensures sub.Node? ==> sub.symbol.parent == symbol && sub.symbol in Symbols(sub)
  {
    Around(t, k, null);
    FindIsExact(t, k);
  }

  /** The links up from everything below the root of a tree are those of the tree. */
  ghost predicate Inside(t: Tree)
    requires Ordered(t)
    reads (Symbols(t) - {Root(t)})`parent
  {
    t.Node? ==> Parents(t.left, t.symbol) && Parents(t.right, t.symbol)
  }

  /** A tree hangs where its root says. */
  lemma Rehung(t: Tree, p: Symbol?)
    requires Sound(t) && Inside(t)
    ensures Hangs(t, p) <==> t.Leaf? || t.symbol.parent == p
  {
  }

  lemma OneSymbol(symbol: Symbol)
    requires symbol.left == null && symbol.right == null
    ensures var one := Node(Leaf, symbol, Leaf);
      Sound(one) && Symbols(one) == {symbol} && Hangs(one, symbol.parent)
  {
  }

  /** What is known of a tree before the subtree at k is replaced */
  lemma Around(t: Tree, k: nat, p: Symbol?)
    requires Sound(t) && Hangs(t, p) && (p == null || p !in Symbols(t))
    ensures Open(t, k, p) && Hangs(Sub(t, k), Over(t, k, p)) && Sound(Sub(t, k))
    ensures var o := Over(t, k, p); o != p ==>
      && o in Symbols(t) && o !in Symbols(Sub(t, k)) && o.identifier != k && Holds(o, k, Sub(t, k), Aside(t, k, Leaf))
      && (Find(t, k) != null ==> Root(Aside(t, k, Leaf)) != Find(t, k))
  {
    LinkedThenAround(t, k, p);
    ParentsThenAround(t, k, p);
    OverHolds(t, k, p, Leaf);
    SubIsSound(t, k);
  }

  lemma {:induction false} SubIsSound(t: Tree, k: nat)
    requires Linked(t) && Ordered(t)
    ensures Linked(Sub(t, k)) && Ordered(Sub(t, k))
  {
    if t.Node? {
      SubIsSound(t.left, k);
      SubIsSound(t.right, k);
    }
  }

  /** What is known of it after */
  lemma Grafted(t: Tree, k: nat, p: Symbol?, sub: Tree)
    requires Open(t, k, p) && Sound(sub) && (p == null || p !in Symbols(t))
    requires forall s :: s in Symbols(sub) ==> s in Symbols(Sub(t, k)) || s.identifier == k
    requires Over(t, k, p) != p ==> Holds(Over(t, k, p), k, sub, Aside(t, k, Leaf))
    ensures Sound(Replaced(t, k, sub))
    ensures Symbols(Replaced(t, k, sub)) == (Symbols(t) - Symbols(Sub(t, k))) + Symbols(sub)
    ensures Hangs(Replaced(t, k, sub), p) <==> Hangs(sub, Over(t, k, p))
    ensures Root(Replaced(t, k, sub)) == if Over(t, k, p) == p then Root(sub) else Root(t)
  {
    AroundThenLinked(t, k, p, Leaf, sub);
    AroundThenParents(t, k, p, sub);
    ReplacedKeeps(t, k, sub);
    ReplacedSymbols(t, k, sub);
    OverIs(t, k, p);
  }
}
