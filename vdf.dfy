/**
 * Valve's KeyValues ("VDF") text format: the tokenizer and the permissive
 * stack parser of parse_vdf.
 *
 * A mapping is an association list whose keys are kept in first-insertion
 * order, as a Python dict keeps them; writing an existing key replaces the
 * value in place.  The parser's stack of open mappings is the path of keys
 * from the root mapping to the innermost open one: every write goes to the
 * innermost mapping, so the mappings on the stack are exactly the ones that
 * path leads through.
 */
module Vdf {
  import opened Wrappers

  // ---------------------------------------------------------------------------
  // Tokens and the tokenizer (the regular expression "([^"]*)"|\{|\})
  // ---------------------------------------------------------------------------

  datatype Token = Open | Close | Str(text: string)

  predicate Quoteless(s: string) {
    forall i :: 0 <= i < |s| ==> s[i] != '"'
  }

  /** Text that matches no token: no quote and no brace. */
  predicate Filler(s: string) {
    forall i :: 0 <= i < |s| ==> s[i] != '"' && s[i] != '{' && s[i] != '}'
  }

  /** Index of the first quote at or after `i`, or |s| when there is none. */
  function QuoteAt(s: string, i: nat): (j: nat)
    requires i <= |s|
    ensures i <= j <= |s|
    ensures j < |s| ==> s[j] == '"'
    ensures forall k :: i <= k < j ==> s[k] != '"'
    decreases |s| - i
  {
    if i == |s| || s[i] == '"' then i else QuoteAt(s, i + 1)
  }

  /**
   * The tokens that a left-to-right scan finds: a quote followed later by
   * another quote yields the literal text between them, a brace yields itself,
   * and every other character (including a quote that is never closed) is
   * skipped.
   */
  function Tokenize(s: string): (toks: seq<Token>)
    ensures forall i :: 0 <= i < |toks| && toks[i].Str? ==> Quoteless(toks[i].text)
    decreases |s|
  {
    if s == [] then []
    else if s[0] == '{' then [Open] + Tokenize(s[1..])
    else if s[0] == '}' then [Close] + Tokenize(s[1..])
    else if s[0] == '"' && QuoteAt(s, 1) < |s| then
      var j := QuoteAt(s, 1);
      [Str(s[1..j])] + Tokenize(s[j + 1..])
    else Tokenize(s[1..])
  }

  /** The text of one token as it appears in a file. */
  function Lexeme(t: Token): string {
    match t
    case Open => "{"
    case Close => "}"
    case Str(x) => "\"" + x + "\""
  }

  /** Tokens written out, each preceded by the separator `sep`. */
  function Render(toks: seq<Token>, sep: string): string {
    if toks == [] then "" else sep + Lexeme(toks[0]) + Render(toks[1..], sep)
  }

  predicate RenderableTokens(toks: seq<Token>) {
    forall i :: 0 <= i < |toks| && toks[i].Str? ==> Quoteless(toks[i].text)
  }

  /** Text outside tokens is ignored. */
  lemma {:induction false} TokenizeSkipsFiller(w: string, rest: string)
    requires Filler(w)
    ensures Tokenize(w + rest) == Tokenize(rest)
    decreases |w|
  {
    if w == [] {
      assert w + rest == rest;
    } else {
      assert (w + rest)[0] == w[0];
      assert (w + rest)[1..] == w[1..] + rest;
      TokenizeSkipsFiller(w[1..], rest);
    }
  }

  /** A token's own text is read back as that token; braces and newlines inside quotes are literal. */
  lemma TokenizeLexeme(t: Token, rest: string)
    requires t.Str? ==> Quoteless(t.text)
    ensures Tokenize(Lexeme(t) + rest) == [t] + Tokenize(rest)
  {
    var s := Lexeme(t) + rest;
    match t
    case Open =>
      assert s[1..] == rest;
    case Close =>
      assert s[1..] == rest;
    case Str(x) =>
      assert s == "\"" + x + "\"" + rest;
      var j := 1 + |x|;
      assert s[j] == '"';
      assert forall k :: 1 <= k < j ==> s[k] == x[k - 1];
      assert QuoteAt(s, 1) == j by { QuoteAtFirst(s, 1, j); }
      assert s[1..j] == x;
      assert s[j + 1..] == rest;
  }

  /** The brace tokens of a text, in order. */
  function Braces(w: string): seq<Token> {
    if w == [] then []
    else (if w[0] == '{' then [Open] else if w[0] == '}' then [Close] else []) + Braces(w[1..])
  }

  /** Quote-free text is read as exactly its braces, in order. */
  lemma {:induction false} TokenizeBraces(w: string)
    requires Quoteless(w)
    ensures Tokenize(w) == Braces(w)
    decreases |w|
  {
    if w != [] {
      TokenizeBraces(w[1..]);
    }
  }

  /** A quote that is never closed is skipped, and the braces after it are still read as tokens. */
  lemma UnclosedQuote(w: string)
    requires Quoteless(w)
    ensures Tokenize("\"" + w) == Tokenize(w) == Braces(w)
  {
    var s := "\"" + w;
    assert forall k :: 1 <= k < |s| ==> s[k] == w[k - 1];
    assert QuoteAt(s, 1) == |s|;
    assert s[1..] == w;
    TokenizeBraces(w);
  }

  lemma {:induction false} QuoteAtFirst(s: string, i: nat, j: nat)
    requires i <= j < |s| && s[j] == '"'
    requires forall k :: i <= k < j ==> s[k] != '"'
    ensures QuoteAt(s, i) == j
    decreases j - i
  {
    if i < j {
      QuoteAtFirst(s, i + 1, j);
    }
  }

  /** Tokenizing rendered tokens gives the tokens back. */
  lemma {:induction false} TokenizeRender(toks: seq<Token>, sep: string)
    requires RenderableTokens(toks) && Filler(sep)
    ensures Tokenize(Render(toks, sep)) == toks
  {
    if toks != [] {
      var rest := Render(toks[1..], sep);
      assert Render(toks, sep) == sep + (Lexeme(toks[0]) + rest);
      TokenizeSkipsFiller(sep, Lexeme(toks[0]) + rest);
      TokenizeLexeme(toks[0], rest);
      TokenizeRender(toks[1..], sep);
    }
  }

  // ---------------------------------------------------------------------------
  // The tree: strings and mappings in insertion order
  // ---------------------------------------------------------------------------

  datatype VNode = Leaf(text: string) | Dict(entries: seq<Entry>)
  datatype Entry = Entry(key: string, node: VNode)

  /** The keys of a mapping, in iteration order. */
  function Keys(es: seq<Entry>): (ks: seq<string>)
    ensures |ks| == |es|
    ensures forall i :: 0 <= i < |es| ==> ks[i] == es[i].key
  {
    if es == [] then [] else [es[0].key] + Keys(es[1..])
  }

  /** mapping.get(k): the value stored under `k`. */
  function Lookup(es: seq<Entry>, k: string): (r: Option<VNode>)
    ensures r.Some? <==> k in Keys(es)
  {
    if es == [] then None
    else if es[0].key == k then Some(es[0].node)
    else Lookup(es[1..], k)
  }

  /**
   * mapping[k] = v: the value under `k` becomes `v`; a new key goes to the
   * end, an existing key keeps its position.
   */
  function Put(es: seq<Entry>, k: string, v: VNode): (r: seq<Entry>)
    ensures Lookup(r, k) == Some(v)
    ensures forall k' :: k' != k ==> Lookup(r, k') == Lookup(es, k')
  {
    if es == [] then [Entry(k, v)]
    else if es[0].key == k then [Entry(k, v)] + es[1..]
    else [es[0]] + Put(es[1..], k, v)
  }

  /** A written key keeps its position; a new key goes to the end. */
  lemma {:induction false} PutKeys(es: seq<Entry>, k: string, v: VNode)
    ensures Keys(Put(es, k, v)) == if k in Keys(es) then Keys(es) else Keys(es) + [k]
  {
    if es != [] {
      assert Keys(es) == [es[0].key] + Keys(es[1..]);
      if es[0].key != k {
        PutKeys(es[1..], k, v);
        assert Keys(Put(es, k, v)) == [es[0].key] + Keys(Put(es[1..], k, v));
      } else {
        assert Keys(Put(es, k, v)) == [k] + Keys(es[1..]);
      }
    }
  }

  /** Writing a key twice keeps only the last value, at the first write's position. */
  lemma {:induction false} PutPut(es: seq<Entry>, k: string, v1: VNode, v2: VNode)
    ensures Put(Put(es, k, v1), k, v2) == Put(es, k, v2)
  {
    if es != [] && es[0].key != k {
      PutPut(es[1..], k, v1, v2);
    }
  }

  /** A key that is not yet present is appended. */
  lemma {:induction false} PutFresh(es: seq<Entry>, k: string, v: VNode)
    requires k !in Keys(es)
    ensures Put(es, k, v) == es + [Entry(k, v)]
  {
    if es != [] {
      assert Keys(es) == [es[0].key] + Keys(es[1..]);
      PutFresh(es[1..], k, v);
    }
  }

  /** Writing back the value already stored changes nothing. */
  lemma {:induction false} PutSame(es: seq<Entry>, k: string)
    requires k in Keys(es)
    ensures Put(es, k, Lookup(es, k).value) == es
  {
    if es[0].key != k {
      assert Keys(es) == [es[0].key] + Keys(es[1..]);
      PutSame(es[1..], k);
    }
  }

  // ---------------------------------------------------------------------------
  // Scopes: the stack of open mappings as a path of keys
  // ---------------------------------------------------------------------------

  /** `path` leads from mapping `es` through nested mappings. */
  predicate IsScope(es: seq<Entry>, path: seq<string>)
    decreases |path|
  {
    path == [] || (Lookup(es, path[0]).Some? && Lookup(es, path[0]).value.Dict? &&
                   IsScope(Lookup(es, path[0]).value.entries, path[1..]))
  }

  /** The mapping that `path` leads to. */
  function Scope(es: seq<Entry>, path: seq<string>): seq<Entry>
    requires IsScope(es, path)
    decreases |path|
  {
    if path == [] then es else Scope(Lookup(es, path[0]).value.entries, path[1..])
  }

  /** The root mapping with the mapping at `path` replaced by `inner`. */
  function ReplaceScope(es: seq<Entry>, path: seq<string>, inner: seq<Entry>): (r: seq<Entry>)
    requires IsScope(es, path)
    ensures IsScope(r, path) && Scope(r, path) == inner
    decreases |path|
  {
    if path == [] then inner
    else
      var child := Lookup(es, path[0]).value.entries;
      Put(es, path[0], Dict(ReplaceScope(child, path[1..], inner)))
  }

  /** A key of the scope at `path` that holds a mapping extends the path by one scope. */
  lemma {:induction false} ScopeExtend(es: seq<Entry>, path: seq<string>, k: string)
    requires IsScope(es, path)
    requires Lookup(Scope(es, path), k).Some? && Lookup(Scope(es, path), k).value.Dict?
    ensures IsScope(es, path + [k])
    ensures Scope(es, path + [k]) == Lookup(Scope(es, path), k).value.entries
    decreases |path|
  {
    if path != [] {
      assert (path + [k])[1..] == path[1..] + [k];
      ScopeExtend(Lookup(es, path[0]).value.entries, path[1..], k);
    }
  }

  /** Closing the innermost scope leaves a path that still leads through mappings. */
  lemma {:induction false} ScopePrefix(es: seq<Entry>, path: seq<string>)
    requires IsScope(es, path) && path != []
    ensures IsScope(es, path[..|path| - 1])
    decreases |path|
  {
    if |path| > 1 {
      assert path[..|path| - 1][1..] == path[1..][..|path| - 2];
      ScopePrefix(Lookup(es, path[0]).value.entries, path[1..]);
    }
  }

  lemma {:induction false} ReplaceScopeSame(es: seq<Entry>, path: seq<string>)
    requires IsScope(es, path)
    ensures ReplaceScope(es, path, Scope(es, path)) == es
    decreases |path|
  {
    if path != [] {
      ReplaceScopeSame(Lookup(es, path[0]).value.entries, path[1..]);
      PutSame(es, path[0]);
    }
  }

  lemma {:induction false} ReplaceScopeTwice(es: seq<Entry>, path: seq<string>, a: seq<Entry>, b: seq<Entry>)
    requires IsScope(es, path)
    ensures ReplaceScope(ReplaceScope(es, path, a), path, b) == ReplaceScope(es, path, b)
    decreases |path|
  {
    if path != [] {
      var child := Lookup(es, path[0]).value.entries;
      ReplaceScopeTwice(child, path[1..], a, b);
      PutPut(es, path[0], Dict(ReplaceScope(child, path[1..], a)), Dict(ReplaceScope(child, path[1..], b)));
    }
  }

  /** Replacing a nested scope is a write of one key in its enclosing scope. */
  lemma {:induction false} ReplaceScopeExtend(es: seq<Entry>, path: seq<string>, k: string, x: seq<Entry>)
    requires IsScope(es, path)
    requires Lookup(Scope(es, path), k).Some? && Lookup(Scope(es, path), k).value.Dict?
    ensures IsScope(es, path + [k])
    ensures ReplaceScope(es, path + [k], x) == ReplaceScope(es, path, Put(Scope(es, path), k, Dict(x)))
    decreases |path|
  {
    ScopeExtend(es, path, k);
    if path == [] {
      assert path + [k] == [k];
    } else {
      assert (path + [k])[1..] == path[1..] + [k];
      ReplaceScopeExtend(Lookup(es, path[0]).value.entries, path[1..], k, x);
    }
  }

  /**
   * Replacing the scope at `path` leaves every enclosing scope with the same
   * keys in the same order and the same values, except the one key on the path.
   */
  lemma {:induction false} ReplaceScopeFrame(es: seq<Entry>, path: seq<string>, inner: seq<Entry>, j: nat)
    requires IsScope(es, path) && j < |path|
    ensures IsScope(es, path[..j]) && IsScope(ReplaceScope(es, path, inner), path[..j])
    ensures Keys(Scope(ReplaceScope(es, path, inner), path[..j])) == Keys(Scope(es, path[..j]))
    ensures forall k :: k != path[j] ==>
              Lookup(Scope(ReplaceScope(es, path, inner), path[..j]), k) == Lookup(Scope(es, path[..j]), k)
    decreases |path|
  {
    var child := Lookup(es, path[0]).value.entries;
    var r := ReplaceScope(es, path, inner);
    if j == 0 {
      assert path[..j] == [];
      PutKeys(es, path[0], Dict(ReplaceScope(child, path[1..], inner)));
    } else {
      assert path[..j][0] == path[0] && path[..j][1..] == path[1..][..j - 1];
      ReplaceScopeFrame(child, path[1..], inner, j - 1);
      assert Lookup(r, path[0]) == Some(Dict(ReplaceScope(child, path[1..], inner)));
    }
  }

  // ---------------------------------------------------------------------------
  // The parser
  // ---------------------------------------------------------------------------

  /**
   * The parser's state: the root mapping, the keys leading to the innermost
   * open mapping (the stack of open mappings below the root) and the key
   * waiting for its value.
   */
  datatype Parser = Parser(root: seq<Entry>, stack: seq<string>, pending: Option<string>)

  /** Every mapping on the stack is a live mapping of the tree. */
  predicate Valid(p: Parser) {
    IsScope(p.root, p.stack)
  }

  const Start := Parser([], [], None)

  /** The effect of one token. */
  function Step(p: Parser, t: Token): (r: Parser)
    requires Valid(p)
    ensures Valid(r)
  {
    match t
    case Open =>
      if p.pending.None? then p
      else
        var k := p.pending.value;
        var root := ReplaceScope(p.root, p.stack, Put(Scope(p.root, p.stack), k, Dict([])));
        ScopeExtend(root, p.stack, k);
        Parser(root, p.stack + [k], None)
    case Close =>
      if p.stack == [] then p
      else
        ScopePrefix(p.root, p.stack);
        p.(stack := p.stack[..|p.stack| - 1])
    case Str(x) =>
      if p.pending.None? then p.(pending := Some(x))
      else Parser(ReplaceScope(p.root, p.stack, Put(Scope(p.root, p.stack), p.pending.value, Leaf(x))), p.stack, None)
  }

  /** The state after a run of tokens. */
  function Run(p: Parser, toks: seq<Token>): (r: Parser)
    requires Valid(p)
    ensures Valid(r)
    decreases toks
  {
    if toks == [] then p else Run(Step(p, toks[0]), toks[1..])
  }

  /** The mapping parse_vdf returns for a text. */
  function Parse(content: string): seq<Entry> {
    Run(Start, Tokenize(content)).root
  }

  /** parse_vdf: one pass over the tokens, updating the stack, the pending key and the tree. */
  method ParseVdf(content: string) returns (result: seq<Entry>)
    ensures result == Parse(content)
  {
    var tokens := Tokenize(content);
    var root: seq<Entry> := [];
    var stack: seq<string> := [];
    var currentKey: Option<string> := None;
    for i := 0 to |tokens|
      invariant IsScope(root, stack)
      invariant Run(Parser(root, stack, currentKey), tokens[i..]) == Run(Start, tokens)
    {
      assert tokens[i..][1..] == tokens[i + 1..];
      match tokens[i]
      case Open =>
        if currentKey.Some? {
          var key := currentKey.value;
          root := ReplaceScope(root, stack, Put(Scope(root, stack), key, Dict([])));
          ScopeExtend(root, stack, key);
          stack := stack + [key];
          currentKey := None;
        }
      case Close =>
        if |stack| > 0 {
          ScopePrefix(root, stack);
          stack := stack[..|stack| - 1];
        }
      case Str(value) =>
        if currentKey.None? {
          currentKey := Some(value);
        } else {
          root := ReplaceScope(root, stack, Put(Scope(root, stack), currentKey.value, Leaf(value)));
          currentKey := None;
        }
    }
    assert tokens[|tokens|..] == [];
    result := root;
  }

  lemma {:induction false} RunAppend(p: Parser, a: seq<Token>, b: seq<Token>)
    requires Valid(p)
    ensures Run(p, a + b) == Run(Run(p, a), b)
    decreases a
  {
    if a == [] {
      assert a + b == b;
    } else {
      assert (a + b)[0] == a[0] && (a + b)[1..] == a[1..] + b;
      RunAppend(Step(p, a[0]), a[1..], b);
    }
  }

  // ---------------------------------------------------------------------------
  // Properties of single steps
  // ---------------------------------------------------------------------------

  /** A closing brace at the root is a no-op; otherwise it closes exactly the innermost mapping. */
  lemma StepClose(p: Parser)
    requires Valid(p)
    ensures Step(p, Close).root == p.root && Step(p, Close).pending == p.pending
    ensures p.stack == [] ==> Step(p, Close) == p
    ensures p.stack != [] ==> Step(p, Close).stack == p.stack[..|p.stack| - 1]
  {
  }

  /** An opening brace with no pending key changes nothing. */
  lemma StepOpenNoKey(p: Parser)
    requires Valid(p) && p.pending.None?
    ensures Step(p, Open) == p
  {
  }

  /**
   * An opening brace after key `k` stores a fresh empty mapping under `k` in the
   * innermost mapping (replacing any earlier value), opens it and clears the key;
   * every enclosing mapping keeps its keys and values except along the stack.
   */
  lemma StepOpenKey(p: Parser, k: string)
    requires Valid(p) && p.pending == Some(k)
    ensures var r := Step(p, Open);
      && r.stack == p.stack + [k] && r.pending.None?
      && Scope(r.root, r.stack) == []
      && Lookup(Scope(r.root, p.stack), k) == Some(Dict([]))
      && Keys(Scope(r.root, p.stack)) == (if k in Keys(Scope(p.root, p.stack)) then Keys(Scope(p.root, p.stack))
                                           else Keys(Scope(p.root, p.stack)) + [k])
      && (forall k' :: k' != k ==> Lookup(Scope(r.root, p.stack), k') == Lookup(Scope(p.root, p.stack), k'))
  {
    var inner := Put(Scope(p.root, p.stack), k, Dict([]));
    var root := ReplaceScope(p.root, p.stack, inner);
    ScopeExtend(root, p.stack, k);
    PutKeys(Scope(p.root, p.stack), k, Dict([]));
  }

  /** A quoted string with no pending key becomes the pending key and changes no mapping. */
  lemma StepKey(p: Parser, x: string)
    requires Valid(p) && p.pending.None?
    ensures Step(p, Str(x)) == p.(pending := Some(x))
  {
  }

  /**
   * A quoted string after key `k` is stored under `k` in the innermost mapping
   * and clears the key; a repeated key is overwritten in place; the stack is
   * unchanged.
   */
  lemma StepValue(p: Parser, k: string, x: string)
    requires Valid(p) && p.pending == Some(k)
    ensures var r := Step(p, Str(x));
      && r.stack == p.stack && r.pending.None?
      && Lookup(Scope(r.root, r.stack), k) == Some(Leaf(x))
      && Keys(Scope(r.root, r.stack)) == (if k in Keys(Scope(p.root, p.stack)) then Keys(Scope(p.root, p.stack))
                                           else Keys(Scope(p.root, p.stack)) + [k])
      && (forall k' :: k' != k ==> Lookup(Scope(r.root, r.stack), k') == Lookup(Scope(p.root, p.stack), k'))
  {
    PutKeys(Scope(p.root, p.stack), k, Leaf(x));
  }

  /**
   * Writes only go to the innermost open mapping: every mapping that encloses
   * it keeps its keys, in order, and the values of every key not on the stack.
   */
  lemma StepWritesInnermost(p: Parser, t: Token, j: nat)
    requires Valid(p) && j < |p.stack|
    requires t != Close
    ensures IsScope(p.root, p.stack[..j]) && IsScope(Step(p, t).root, p.stack[..j])
    ensures Keys(Scope(Step(p, t).root, p.stack[..j])) == Keys(Scope(p.root, p.stack[..j]))
    ensures forall k :: k != p.stack[j] ==>
              Lookup(Scope(Step(p, t).root, p.stack[..j]), k) == Lookup(Scope(p.root, p.stack[..j]), k)
  {
    var inner := match t
                 case Open => Put(Scope(p.root, p.stack), p.pending.GetOr(""), Dict([]))
                 case Close => []
                 case Str(x) => Put(Scope(p.root, p.stack), p.pending.GetOr(""), Leaf(x));
    ReplaceScopeFrame(p.root, p.stack, inner, j);
    if p.pending.None? {
      ScopePrefix2(p.root, p.stack, j);
    }
  }

  lemma {:induction false} ScopePrefix2(es: seq<Entry>, path: seq<string>, j: nat)
    requires IsScope(es, path) && j <= |path|
    ensures IsScope(es, path[..j])
    decreases |path|
  {
    if j == |path| {
      assert path[..j] == path;
    } else {
      ScopePrefix(es, path);
      assert path[..|path| - 1][..j] == path[..j];
      ScopePrefix2(es, path[..|path| - 1], j);
    }
  }

  /** A key left without a value at the end of the input never reaches the result. */
  lemma DanglingKeyDropped(toks: seq<Token>, k: string)
    requires Run(Start, toks).pending.None?
    ensures Run(Start, toks + [Str(k)]).root == Run(Start, toks).root
  {
    RunAppend(Start, toks, [Str(k)]);
  }

  /** A stray closing brace before anything is open is ignored. */
  lemma StrayCloseIgnored(content: string)
    ensures Parse("}" + content) == Parse(content)
  {
    assert ("}" + content)[1..] == content;
  }

  // ---------------------------------------------------------------------------
  // Round trip: writing a tree out and parsing it reconstructs it
  // ---------------------------------------------------------------------------

  /** The tokens that write out a mapping's entries. */
  function Serialize(es: seq<Entry>): seq<Token> {
    if es == [] then []
    else
      var head := match es[0].node
                  case Leaf(v) => [Str(es[0].key), Str(v)]
                  case Dict(c) => [Str(es[0].key), Open] + Serialize(c) + [Close];
      head + Serialize(es[1..])
  }

  /** The mapping obtained by writing the entries of `es` into `d` one after another. */
  function Rebuild(d: seq<Entry>, es: seq<Entry>): seq<Entry>
    decreases es
  {
    if es == [] then d
    else
      var v := match es[0].node
               case Leaf(x) => Leaf(x)
               case Dict(c) => Dict(Rebuild([], c));
      Rebuild(Put(d, es[0].key, v), es[1..])
  }

  /**
   * A mapping that a VDF file can express: distinct keys at every level, no
   * quotes in keys or strings.
   */
  predicate WellFormed(es: seq<Entry>) {
    es == [] ||
    (&& es[0].key !in Keys(es[1..])
     && Quoteless(es[0].key)
     && (match es[0].node
         case Leaf(v) => Quoteless(v)
         case Dict(c) => WellFormed(c))
     && WellFormed(es[1..]))
  }

  lemma {:induction false} SerializeRenderable(es: seq<Entry>)
    requires WellFormed(es)
    ensures RenderableTokens(Serialize(es))
  {
    if es != [] {
      SerializeRenderable(es[1..]);
      match es[0].node
      case Leaf(v) =>
      case Dict(c) => SerializeRenderable(c);
    }
  }

  /** A key and a string value: one write into the innermost mapping. */
  lemma RunLeafEntry(p: Parser, k: string, x: string, t: seq<Token>)
    requires Valid(p) && p.pending.None?
    ensures Valid(Parser(ReplaceScope(p.root, p.stack, Put(Scope(p.root, p.stack), k, Leaf(x))), p.stack, None))
    ensures Run(p, [Str(k), Str(x)] + t) ==
            Run(Parser(ReplaceScope(p.root, p.stack, Put(Scope(p.root, p.stack), k, Leaf(x))), p.stack, None), t)
  {
    var s := [Str(k), Str(x)] + t;
    assert s[0] == Str(k) && s[1..][0] == Str(x) && s[1..][1..] == t;
  }

  /** A key and an opening brace: a fresh mapping under the key, now innermost. */
  lemma RunOpenEntry(p: Parser, k: string, t: seq<Token>)
    requires Valid(p) && p.pending.None?
    ensures var r1 := ReplaceScope(p.root, p.stack, Put(Scope(p.root, p.stack), k, Dict([])));
      && IsScope(r1, p.stack + [k]) && Scope(r1, p.stack + [k]) == []
      && Run(p, [Str(k), Open] + t) == Run(Parser(r1, p.stack + [k], None), t)
  {
    var r1 := ReplaceScope(p.root, p.stack, Put(Scope(p.root, p.stack), k, Dict([])));
    ScopeExtend(r1, p.stack, k);
    var s := [Str(k), Open] + t;
    assert s[0] == Str(k) && s[1..][0] == Open && s[1..][1..] == t;
  }

  /** A closing brace pops the mapping that the last key opened. */
  lemma RunCloseEntry(root: seq<Entry>, stack: seq<string>, k: string, t: seq<Token>)
    requires IsScope(root, stack + [k])
    ensures IsScope(root, stack)
    ensures Run(Parser(root, stack + [k], None), [Close] + t) == Run(Parser(root, stack, None), t)
  {
    ScopePrefix(root, stack + [k]);
    assert (stack + [k])[..|stack + [k]| - 1] == stack;
    var s := [Close] + t;
    assert s[0] == Close && s[1..] == t;
  }

  /** Filling the mapping that a key has just opened is one write of that key. */
  lemma ReplaceNested(root: seq<Entry>, stack: seq<string>, k: string, x: seq<Entry>)
    requires IsScope(root, stack)
    ensures var d := Scope(root, stack);
            var r1 := ReplaceScope(root, stack, Put(d, k, Dict([])));
      && IsScope(r1, stack + [k])
      && ReplaceScope(r1, stack + [k], x) == ReplaceScope(root, stack, Put(d, k, Dict(x)))
  {
    var d := Scope(root, stack);
    var r1 := ReplaceScope(root, stack, Put(d, k, Dict([])));
    ReplaceScopeExtend(r1, stack, k, x);
    PutPut(d, k, Dict([]), Dict(x));
    ReplaceScopeTwice(root, stack, Put(d, k, Dict([])), Put(d, k, Dict(x)));
  }

  /**
   * Running the tokens of `es` from a state with no pending key writes the
   * entries into the innermost mapping and leaves the stack as it was.
   */
  lemma {:induction false} RunSerialize(p: Parser, es: seq<Entry>)
    requires Valid(p) && p.pending.None?
    ensures Run(p, Serialize(es)) ==
            Parser(ReplaceScope(p.root, p.stack, Rebuild(Scope(p.root, p.stack), es)), p.stack, None)
    decreases es, 1
  {
    var d := Scope(p.root, p.stack);
    if es == [] {
      ReplaceScopeSame(p.root, p.stack);
    } else if es[0].node.Dict? {
      RunSerializeNested(p, es);
    } else {
      var k := es[0].key;
      var x := es[0].node.text;
      var rest := Serialize(es[1..]);
      assert Serialize(es) == [Str(k), Str(x)] + rest;
      RunLeafEntry(p, k, x, rest);
      var inner := Put(d, k, Leaf(x));
      var p2 := Parser(ReplaceScope(p.root, p.stack, inner), p.stack, None);
      RunSerialize(p2, es[1..]);
      ReplaceScopeTwice(p.root, p.stack, inner, Rebuild(inner, es[1..]));
    }
  }

  /** RunSerialize when the first entry holds a nested mapping. */
  lemma {:induction false} RunSerializeNested(p: Parser, es: seq<Entry>)
    requires Valid(p) && p.pending.None?
    requires es != [] && es[0].node.Dict?
    ensures Run(p, Serialize(es)) ==
            Parser(ReplaceScope(p.root, p.stack, Rebuild(Scope(p.root, p.stack), es)), p.stack, None)
    decreases es, 0
  {
    var d := Scope(p.root, p.stack);
    var k := es[0].key;
    var c := es[0].node.entries;
    var rest := Serialize(es[1..]);
    var t := Serialize(c) + ([Close] + rest);
    assert Serialize(es) == [Str(k), Open] + t;
    RunOpenEntry(p, k, t);
    var r1 := ReplaceScope(p.root, p.stack, Put(d, k, Dict([])));
    var p1 := Parser(r1, p.stack + [k], None);
    RunAppend(p1, Serialize(c), [Close] + rest);
    RunSerialize(p1, c);
    var x := Rebuild([], c);
    var r2 := ReplaceScope(r1, p.stack + [k], x);
    RunCloseEntry(r2, p.stack, k, rest);
    ReplaceNested(p.root, p.stack, k, x);
    var inner := Put(d, k, Dict(x));
    assert Rebuild(d, es) == Rebuild(inner, es[1..]);
    var p3 := Parser(r2, p.stack, None);
    RunSerialize(p3, es[1..]);
    ReplaceScopeTwice(p.root, p.stack, inner, Rebuild(inner, es[1..]));
  }

  lemma AppendHead<T>(d: seq<T>, es: seq<T>)
    requires es != []
    ensures (d + [es[0]]) + es[1..] == d + es
  {
    assert es == [es[0]] + es[1..];
  }

  lemma KeysAppend(d: seq<Entry>, e: Entry)
    ensures Keys(d + [e]) == Keys(d) + [e.key]
  {
  }

  /** Rebuilding a well-formed entry list from an empty mapping gives it back. */
  lemma {:induction false} RebuildHead(d: seq<Entry>, es: seq<Entry>)
    requires WellFormed(es) && es != []
    requires es[0].key !in Keys(d)
    requires es[0].node.Dict? ==> Rebuild([], es[0].node.entries) == es[0].node.entries
    ensures Rebuild(d, es) == Rebuild(d + [es[0]], es[1..])
  {
    var v := match es[0].node
             case Leaf(x) => Leaf(x)
             case Dict(c) => Dict(Rebuild([], c));
    assert v == es[0].node;
    PutFresh(d, es[0].key, v);
  }

  /** Writing distinct, not yet present keys into `d` appends the entries unchanged. */
  lemma {:induction false} RebuildFresh(d: seq<Entry>, es: seq<Entry>)
    requires WellFormed(es)
    requires forall i :: 0 <= i < |es| ==> es[i].key !in Keys(d)
    ensures Rebuild(d, es) == d + es
    decreases es
  {
    if es == [] {
      assert d + es == d;
    } else {
      if es[0].node.Dict? {
        RebuildFresh([], es[0].node.entries);
        assert [] + es[0].node.entries == es[0].node.entries;
      }
      RebuildHead(d, es);
      var d2 := d + [es[0]];
      KeysAppend(d, es[0]);
      forall i | 0 <= i < |es| - 1
        ensures es[1..][i].key !in Keys(d2)
      {
        assert es[1..][i] == es[i + 1];
        assert es[i + 1].key !in Keys(d);
        assert Keys(es[1..])[i] == es[1..][i].key;
      }
      RebuildFresh(d2, es[1..]);
      AppendHead(d, es);
    }
  }

  /** Parsing a well-formed mapping written out with the same filler before each token gives it back exactly. */
  lemma ParseRoundTrip(es: seq<Entry>, sep: string)
    requires WellFormed(es) && Filler(sep)
    ensures Parse(Render(Serialize(es), sep)) == es
  {
    SerializeRenderable(es);
    TokenizeRender(Serialize(es), sep);
    RunSerialize(Start, es);
    RebuildFresh([], es);
  }

  /** A repeated key in one mapping: the last value wins. */
  lemma DuplicateKeyLastWins(k: string, v1: string, v2: string, sep: string)
    requires Quoteless(k) && Quoteless(v1) && Quoteless(v2) && Filler(sep)
    ensures Parse(Render([Str(k), Str(v1), Str(k), Str(v2)], sep)) == [Entry(k, Leaf(v2))]
  {
    var toks := [Str(k), Str(v1), Str(k), Str(v2)];
    TokenizeRender(toks, sep);
    var p2 := Step(Step(Start, Str(k)), Str(v1));
    assert p2.root == [Entry(k, Leaf(v1))];
    var p4 := Step(Step(p2, Str(k)), Str(v2));
    assert p4.root == [Entry(k, Leaf(v2))];
    RunLeafEntry(Start, k, v1, toks[2..]);
    assert toks == [Str(k), Str(v1)] + toks[2..];
    RunLeafEntry(p2, k, v2, []);
    assert toks[2..] == [Str(k), Str(v2)] + [];
  }
}
