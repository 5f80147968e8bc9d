/**
 * The user-CSS sanitiser. A stylesheet is parsed into a tree of at-rules, rules, declarations
 * and comments; three walks over the tree then remove every at-rule outside a small allowed
 * set, every declaration with a blocked property or an unsafe value (and take `!important`
 * off fixed or absolute positioning), and every comment. Input is refused before parsing
 * when it is empty, only whitespace, or longer than 100 KB once trimmed.
 *
 * Parsing and serialising are inputs: the tree is the parser's output, and the result is the
 * sanitised tree.
 */
module CssSanitizer {
  import opened Wrappers
  import Text

  const BLOCKED_PROPERTIES: set<string> := {"behavior", "-moz-binding", "binding", "link", "filter"}
  const BLOCKED_FUNCTIONS: seq<string> :=
    ["expression", "javascript", "vbscript", "import", "url-prefix", "domain"]
  const ALLOWED_AT_RULES: set<string> := {"media", "supports", "keyframes", "font-face", "container"}
  /** 100 * 1024 UTF-16 code units. */
  const MAX_CSS_LENGTH: nat := 102400
  const SIZE_ERROR: string := "CSS exceeds maximum size of 100KB"
  const NOT_A_STRING_ERROR: string := "CSS must be a non-empty string"

  // ---- values ----

  /** A declaration value is safe when its lower case holds no blocked function applied
      (`name(`), no `javascript:` protocol, and not both `data:` and `script`. */
  predicate ValueSafe(value: string)
  {
    var lower := Text.ToLower(value);
    && (forall k :: 0 <= k < |BLOCKED_FUNCTIONS| ==>
          !Text.Contains(lower, BLOCKED_FUNCTIONS[k] + "("))
    && !Text.Contains(lower, "javascript:")
    && !(Text.Contains(lower, "data:") && Text.Contains(lower, "script"))
  }

  /** `isValueSafe`: the blocked functions are tried in order, returning at the first hit. */
  method IsValueSafe(value: string) returns (safe: bool)
    ensures safe <==> ValueSafe(value)
  {
    var lower := Text.ToLower(value);
    var k := 0;
    while k < |BLOCKED_FUNCTIONS|
      invariant 0 <= k <= |BLOCKED_FUNCTIONS|
      invariant forall m :: 0 <= m < k ==> !Text.Contains(lower, BLOCKED_FUNCTIONS[m] + "(")
    {
      if Text.Contains(lower, BLOCKED_FUNCTIONS[k] + "(") {
        return false;
      }
      k := k + 1;
    }
    if Text.Contains(lower, "javascript:") {
      return false;
    }
    if Text.Contains(lower, "data:") && Text.Contains(lower, "script") {
      return false;
    }
    return true;
  }

  /** Lowering twice is lowering once. */
  lemma ToLowerIdempotent(s: string)
    ensures Text.ToLower(Text.ToLower(s)) == Text.ToLower(s)
  {
    var once := Text.ToLower(s);
    assert forall i :: 0 <= i < |s| ==> Text.LowerChar(once[i]) == once[i];
  }

  /** The check ignores letter case: a value and its lower case are judged alike, so
      `EXPRESSION(` or `JavaScript:` are caught as surely as the lower-case spellings. */
  lemma ValueSafeIgnoresCase(value: string)
    ensures ValueSafe(Text.ToLower(value)) <==> ValueSafe(value)
  {
    ToLowerIdempotent(value);
  }

  // ---- the tree ----

  datatype Node =
    | AtRule(name: string, params: string, nodes: seq<Node>)
    | Rule(selector: string, nodes: seq<Node>)
    | Decl(prop: string, value: string, important: bool)
    | Comment(text: string)

  /** `n` with its children replaced by `cs`; declarations and comments have none. */
  function WithChildren(n: Node, cs: seq<Node>): (m: Node)
    ensures m.AtRule? == n.AtRule? && m.Rule? == n.Rule?
    ensures (n.AtRule? || n.Rule?) ==> m.nodes == cs
    ensures !(n.AtRule? || n.Rule?) ==> m == n
  {
    match n
    case AtRule(name, params, _) => AtRule(name, params, cs)
    case Rule(selector, _) => Rule(selector, cs)
    case _ => n
  }

  /** `q` holds of every node of the forest, at every depth. */
  predicate Everywhere(ns: seq<Node>, q: Node -> bool)
    decreases ns
  {
    forall i :: 0 <= i < |ns| ==> EverywhereAt(ns[i], q)
  }

  predicate EverywhereAt(n: Node, q: Node -> bool)
    decreases n
  {
    q(n) && ((n.AtRule? || n.Rule?) ==> Everywhere(n.nodes, q))
  }

  /** `q` looks only at a node's own fields, never at its children. */
  ghost predicate Local(q: Node -> bool)
  {
    forall n, cs :: q(WithChildren(n, cs)) == q(n)
  }

  /** One postcss walk: each node is visited, and the visitor either removes it (None) or
      keeps it, possibly with changed fields; the children of a kept node are walked in turn,
      and a removed node goes with its whole subtree. */
  function Walk(ns: seq<Node>, f: Node -> Option<Node>): (r: seq<Node>)
    ensures |r| <= |ns|
    ensures (forall i :: 0 <= i < |ns| ==> f(ns[i]).Some?) ==> |r| == |ns|
    decreases ns
  {
    if ns == [] then [] else Walk(ns[..|ns| - 1], f) + WalkAt(ns[|ns| - 1], f)
  }

  /** One node's walk: the node goes exactly when the visitor removes it, and otherwise it
      stays as a single node of the kind the visitor returned. */
  function WalkAt(n: Node, f: Node -> Option<Node>): (r: seq<Node>)
    ensures |r| <= 1
    ensures r == [] <==> f(n).None?
    ensures r != [] ==> r[0].AtRule? == f(n).value.AtRule? && r[0].Rule? == f(n).value.Rule?
    decreases n
  {
    match f(n)
    case None => []
    case Some(m) => [WithChildren(m, if n.AtRule? || n.Rule? then Walk(n.nodes, f) else [])]
  }

  lemma EverywhereAppend(a: seq<Node>, b: seq<Node>, q: Node -> bool)
    requires Everywhere(a, q) && Everywhere(b, q)
    ensures Everywhere(a + b, q)
  {
    assert forall i :: 0 <= i < |a + b| ==> (a + b)[i] == if i < |a| then a[i] else b[i - |a|];
  }

  /** A walk whose visitor only keeps nodes satisfying a local `q` leaves a forest where `q`
      holds everywhere. */
  lemma {:induction false} WalkEstablishes(ns: seq<Node>, f: Node -> Option<Node>, q: Node -> bool)
    requires Local(q)
    requires forall n :: f(n).Some? ==> q(f(n).value)
    ensures Everywhere(Walk(ns, f), q)
    decreases ns
  {
    if ns != [] {
      var k := |ns| - 1;
      WalkEstablishes(ns[..k], f, q);
      WalkAtEstablishes(ns[k], f, q);
      EverywhereAppend(Walk(ns[..k], f), WalkAt(ns[k], f), q);
    }
  }

  lemma {:induction false} WalkAtEstablishes(n: Node, f: Node -> Option<Node>, q: Node -> bool)
    requires Local(q)
    requires forall n :: f(n).Some? ==> q(f(n).value)
    ensures Everywhere(WalkAt(n, f), q)
    decreases n
  {
    if f(n).Some? {
      var m := f(n).value;
      var cs := if n.AtRule? || n.Rule? then Walk(n.nodes, f) else [];
      if n.AtRule? || n.Rule? {
        WalkEstablishes(n.nodes, f, q);
      }
      assert q(WithChildren(m, cs)) == q(m);
    }
  }

  /** A walk whose visitor keeps a local `q` true on every node it keeps preserves `q`
      holding everywhere. */
  lemma {:induction false} WalkPreserves(ns: seq<Node>, f: Node -> Option<Node>, q: Node -> bool)
    requires Local(q)
    requires forall n :: q(n) && f(n).Some? ==> q(f(n).value)
    requires Everywhere(ns, q)
    ensures Everywhere(Walk(ns, f), q)
    decreases ns
  {
    if ns != [] {
      var k := |ns| - 1;
      WalkPreserves(ns[..k], f, q);
      WalkAtPreserves(ns[k], f, q);
      EverywhereAppend(Walk(ns[..k], f), WalkAt(ns[k], f), q);
    }
  }

  lemma {:induction false} WalkAtPreserves(n: Node, f: Node -> Option<Node>, q: Node -> bool)
    requires Local(q)
    requires forall n :: q(n) && f(n).Some? ==> q(f(n).value)
    requires EverywhereAt(n, q)
    ensures Everywhere(WalkAt(n, f), q)
    decreases n
  {
    if f(n).Some? {
      var m := f(n).value;
      var cs := if n.AtRule? || n.Rule? then Walk(n.nodes, f) else [];
      if n.AtRule? || n.Rule? {
        WalkPreserves(n.nodes, f, q);
      }
      assert q(WithChildren(m, cs)) == q(m);
    }
  }

  /** A walk whose visitor keeps unchanged every node satisfying `q` changes nothing in a
      forest where `q` holds everywhere. */
  lemma {:induction false} WalkIdentity(ns: seq<Node>, f: Node -> Option<Node>, q: Node -> bool)
    requires forall n :: q(n) ==> f(n) == Some(n)
    requires Everywhere(ns, q)
    ensures Walk(ns, f) == ns
    decreases ns
  {
    if ns != [] {
      var k := |ns| - 1;
      WalkIdentity(ns[..k], f, q);
      WalkAtIdentity(ns[k], f, q);
      assert ns == ns[..k] + [ns[k]];
    }
  }

  lemma {:induction false} WalkAtIdentity(n: Node, f: Node -> Option<Node>, q: Node -> bool)
    requires forall n :: q(n) ==> f(n) == Some(n)
    requires EverywhereAt(n, q)
    ensures WalkAt(n, f) == [n]
    decreases n
  {
    if n.AtRule? || n.Rule? {
      WalkIdentity(n.nodes, f, q);
    }
  }

  // ---- the three visitors ----

  /** The at-rule visitor's test: remove unless the lower-cased name is allowed, and remove
      an `import` rule besides. */
  predicate KeepsAtRule(name: string)
  {
    Text.ToLower(name) in ALLOWED_AT_RULES && Text.ToLower(name) != "import"
  }

  /** The second test never fires: `import` is not an allowed name. */
  lemma ImportTestRedundant(name: string)
    ensures KeepsAtRule(name) <==> Text.ToLower(name) in ALLOWED_AT_RULES
  {
  }

  function AtRuleVisitor(n: Node): (r: Option<Node>)
    ensures r.None? <==> n.AtRule? && Text.ToLower(n.name) !in ALLOWED_AT_RULES
    ensures r.Some? ==> r.value == n
  {
    if n.AtRule? && !KeepsAtRule(n.name) then None else Some(n)
  }

  /** The declaration the visitor would strip `!important` from: `position` (in any case)
      with the value exactly `fixed` or `absolute`. */
  predicate Overlay(n: Node)
    requires n.Decl?
  {
    Text.ToLower(n.prop) == "position" && (n.value == "fixed" || n.value == "absolute")
  }

  function DeclVisitor(n: Node): (r: Option<Node>)
    ensures !n.Decl? ==> r == Some(n)
    ensures n.Decl? ==>
              (r.None? <==> Text.ToLower(n.prop) in BLOCKED_PROPERTIES || !ValueSafe(n.value))
    ensures n.Decl? && r.Some? ==>
              r.value == if Overlay(n) then n.(important := false) else n
  {
    if !n.Decl? then Some(n)
    else
      var prop := Text.ToLower(n.prop);
      if prop in BLOCKED_PROPERTIES then None
      else if !ValueSafe(n.value) then None
      else if prop == "position" && (n.value == "fixed" || n.value == "absolute") then
        Some(if n.important then n.(important := false) else n)
      else Some(n)
  }

  function CommentVisitor(n: Node): (r: Option<Node>)
    ensures r.None? <==> n.Comment?
    ensures r.Some? ==> r.value == n
  {
    if n.Comment? then None else Some(n)
  }

  // ---- what survives ----

  predicate AtRuleAllowed(n: Node)
  {
    n.AtRule? ==> Text.ToLower(n.name) in ALLOWED_AT_RULES
  }

  predicate DeclSafe(n: Node)
  {
    n.Decl? ==>
      Text.ToLower(n.prop) !in BLOCKED_PROPERTIES && ValueSafe(n.value) &&
      !(Overlay(n) && n.important)
  }

  predicate NotComment(n: Node)
  {
    !n.Comment?
  }

  /** A forest the sanitiser has nothing to do to. */
  predicate Clean(ns: seq<Node>)
  {
    Everywhere(ns, AtRuleAllowed) && Everywhere(ns, DeclSafe) && Everywhere(ns, NotComment)
  }

  lemma LocalProperties()
    ensures Local(AtRuleAllowed) && Local(DeclSafe) && Local(NotComment)
  {
  }

  /** The three walks, in the order `sanitizeCSS` runs them. Afterwards every at-rule at
      any depth has an allowed name, every declaration has an unblocked property, a safe
      value and no `!important` on an overlay position, and no comment is left. */
  function Sanitized(ns: seq<Node>): (r: seq<Node>)
    ensures Clean(r)
  {
    var a := Walk(ns, AtRuleVisitor);
    var d := Walk(a, DeclVisitor);
    LocalProperties();
    WalkEstablishes(ns, AtRuleVisitor, AtRuleAllowed);
    WalkPreserves(a, DeclVisitor, AtRuleAllowed);
    WalkPreserves(d, CommentVisitor, AtRuleAllowed);
    WalkEstablishes(a, DeclVisitor, DeclSafe);
    WalkPreserves(d, CommentVisitor, DeclSafe);
    WalkEstablishes(d, CommentVisitor, NotComment);
    Walk(d, CommentVisitor)
  }

  /** A clean stylesheet comes through unchanged: the sanitiser removes or alters only what
      it must. */
  lemma CleanUnchanged(ns: seq<Node>)
    requires Clean(ns)
    ensures Sanitized(ns) == ns
  {
    WalkIdentity(ns, AtRuleVisitor, AtRuleAllowed);
    WalkIdentity(ns, DeclVisitor, DeclSafe);
    WalkIdentity(ns, CommentVisitor, NotComment);
  }

  /** Sanitising is idempotent, and a stylesheet is a fixed point exactly when it is clean. */
  lemma SanitizeIdempotent(ns: seq<Node>)
    ensures Sanitized(Sanitized(ns)) == Sanitized(ns)
    ensures Sanitized(ns) == ns <==> Clean(ns)
  {
    CleanUnchanged(Sanitized(ns));
    if Clean(ns) {
      CleanUnchanged(ns);
    }
  }

  // ---- the entry points ----

  datatype CssError = TooLarge

  /** `sanitizeCSS`: null for empty or whitespace-only input, the size error for more than
      100 KB after trimming, and otherwise the sanitised tree of the trimmed text. */
  method SanitizeCss(css: string, parse: string -> seq<Node>)
    returns (r: Result<Option<seq<Node>>, CssError>)
    ensures r == Success(None) <==> Text.Trim(css) == []
    ensures r == Failure(TooLarge) <==> Text.Utf16Length(Text.Trim(css)) > MAX_CSS_LENGTH
    ensures r.Success? && r.value.Some? ==>
              r.value.value == Sanitized(parse(Text.Trim(css))) && Clean(r.value.value)
  {
    if css == [] {
      return Success(None);
    }
    var trimmed := Text.Trim(css);
    if |trimmed| == 0 {
      return Success(None);
    }
    if Text.Utf16Length(trimmed) > MAX_CSS_LENGTH {
      return Failure(TooLarge);
    }
    var nodes := parse(trimmed);
    nodes := Walk(nodes, AtRuleVisitor);
    nodes := Walk(nodes, DeclVisitor);
    nodes := Walk(nodes, CommentVisitor);
    return Success(Some(nodes));
  }

  datatype Validation = Validation(valid: bool, errors: seq<string>)

  /** `validateCSS`: the empty string and more than 100 KB before trimming are refused with
      their messages; otherwise the outcome is whether `sanitizeCSS` raises, which is never,
      since trimming does not lengthen the text. */
  function ValidateCss(css: string): (v: Validation)
    ensures v.valid <==> css != [] && Text.Utf16Length(css) <= MAX_CSS_LENGTH
    ensures v.valid <==> v.errors == []
    ensures css == [] ==> v.errors == [NOT_A_STRING_ERROR]
    ensures css != [] && !v.valid ==> v.errors == [SIZE_ERROR]
  {
    if css == [] then Validation(false, [NOT_A_STRING_ERROR])
    else if Text.Utf16Length(css) > MAX_CSS_LENGTH then Validation(false, [SIZE_ERROR])
    else
      Text.TrimNotLonger(css);
      if Text.Utf16Length(Text.Trim(css)) > MAX_CSS_LENGTH then Validation(false, [SIZE_ERROR])
      else Validation(true, [])
  }

  /** Whitespace-only input is valid for `validateCSS` although `sanitizeCSS` maps it to
      null. */
  lemma WhitespaceOnlyValid(css: string)
    requires css != [] && Text.Trim(css) == [] && Text.Utf16Length(css) <= MAX_CSS_LENGTH
    ensures ValidateCss(css).valid
  {
  }
}
