/** The replacements the translator collects, spliced into the source
    (crates/kynos-openapi/src/pattern.rs:115-131): they lie in bounds, in order
    and apart, and the result is the rewritten tree, as it is written. */
module PatternSplice {
  import opened PatternSyntax
  import opened PatternRewrite
  import opened Sequences

  type Replacement = (Span, string)

  // --- The rewritten tree -----------------------------------------------

  function RewriteLiteral(literal: Literal): Literal {
    if literal.kind == Octal then Literal(literal.span, HexFixed(X), Text(NulConstruct), '\U{0000}') else literal
  }

  function RewriteItem(item: ClassItem): ClassItem {
    match item
    case LiteralItem(literal) => LiteralItem(RewriteLiteral(literal))
    case RangeItem(lo, hi) => RangeItem(RewriteLiteral(lo), RewriteLiteral(hi))
    case PerlItem(perl) => BracketedItem(PerlClass(perl.kind, perl.negated))
    case UnionItem(items) => UnionItem(RewriteItems(items))
    case _ => item
  }

  function RewriteItems(items: seq<ClassItem>): (r: seq<ClassItem>)
    ensures |r| == |items| && forall k :: 0 <= k < |r| ==> r[k] == RewriteItem(items[k])
  {
    if items == [] then [] else [RewriteItem(items[0])] + RewriteItems(items[1..])
  }

  function RewriteBracketed(bracketed: Bracketed): Bracketed {
    if bracketed.members.ItemSet? then bracketed.(members := ItemSet(RewriteItem(bracketed.members.item)))
    else bracketed
  }

  function Rewrite(ast: Ast): Ast {
    match ast
    case LiteralAst(literal) => LiteralAst(RewriteLiteral(literal))
    case Dot(_) => BracketedAst(DotClass(DotConstruct))
    case Assertion(span, kind) => if kind in {WordBoundary, NotWordBoundary} then AsciiBoundary(span, kind) else ast
    case PerlAst(perl) => BracketedAst(PerlClass(perl.kind, perl.negated))
    case BracketedAst(bracketed) => BracketedAst(RewriteBracketed(bracketed))
    case Repetition(op, sub) => Repetition(op, Rewrite(sub))
    case Group(kind, sub) => Group(kind, Rewrite(sub))
    case Alternation(asts) => Alternation(RewriteAll(asts))
    case Concat(asts) => Concat(RewriteAll(asts))
    case _ => ast
  }

  function RewriteAll(asts: seq<Ast>): (r: seq<Ast>)
    ensures |r| == |asts| && forall k :: 0 <= k < |r| ==> r[k] == Rewrite(asts[k])
  {
    if asts == [] then [] else [Rewrite(asts[0])] + RewriteAll(asts[1..])
  }

  // --- The replacements -------------------------------------------------

  function LiteralReplacements(literal: Literal): seq<Replacement> {
    if literal.kind == Octal then [(literal.span, Text(NulConstruct))] else []
  }

  function ItemReplacements(item: ClassItem): seq<Replacement> {
    match item
    case LiteralItem(literal) => LiteralReplacements(literal)
    case RangeItem(lo, hi) => LiteralReplacements(lo) + LiteralReplacements(hi)
    case PerlItem(perl) => [(perl.span, Text(PerlConstruct(perl.kind, perl.negated)))]
    case UnionItem(items) => ItemsReplacements(items)
    case _ => []
  }

  function ItemsReplacements(items: seq<ClassItem>): seq<Replacement> {
    if items == [] then [] else ItemReplacements(items[0]) + ItemsReplacements(items[1..])
  }

  function Replacements(ast: Ast): seq<Replacement> {
    match ast
    case LiteralAst(literal) => LiteralReplacements(literal)
    case Dot(span) => [(span, Text(DotConstruct))]
    case Assertion(span, WordBoundary) => [(span, Text(BoundaryConstruct(false)))]
    case Assertion(span, NotWordBoundary) => [(span, Text(BoundaryConstruct(true)))]
    case PerlAst(perl) => [(perl.span, Text(PerlConstruct(perl.kind, perl.negated)))]
    case BracketedAst(bracketed) => if bracketed.members.ItemSet? then ItemReplacements(bracketed.members.item) else []
    case Repetition(_, sub) => Replacements(sub)
    case Group(_, sub) => Replacements(sub)
    case Alternation(asts) => AllReplacements(asts)
    case Concat(asts) => AllReplacements(asts)
    case _ => []
  }

  function AllReplacements(asts: seq<Ast>): seq<Replacement> {
    if asts == [] then [] else Replacements(asts[0]) + AllReplacements(asts[1..])
  }

  // --- Splicing ---------------------------------------------------------

  /** The replaced spans lie between `from` and `to`, in order and apart. */
  predicate Fits(replacements: seq<Replacement>, from: nat, to: nat) {
    if replacements == [] then from <= to
    else
      var span := replacements[0].0;
      from <= span.start <= span.end && Fits(replacements[1..], span.end, to)
  }

  lemma {:induction false} FitsOrders(replacements: seq<Replacement>, from: nat, to: nat)
    requires Fits(replacements, from, to)
    ensures from <= to
  {
    if replacements != [] {
      FitsOrders(replacements[1..], replacements[0].0.end, to);
    }
  }

  /** `source[from..to]` with each replaced span's text in its place. */
  function Splice(source: string, replacements: seq<Replacement>, from: nat, to: nat): string
    requires to <= |source| && Fits(replacements, from, to)
  {
    if replacements == [] then source[from..to]
    else
      var (span, text) := replacements[0];
      FitsOrders(replacements[1..], span.end, to);
      source[from..span.start] + text + Splice(source, replacements[1..], span.end, to)
  }

  /** Splicing `replacements` into `source[from..to]` is sound and yields `text`. */
  ghost predicate Splices(source: string, replacements: seq<Replacement>, from: nat, to: nat, text: string) {
    to <= |source| && Fits(replacements, from, to) && Splice(source, replacements, from, to) == text
  }

  lemma {:induction false} SplicesConcat(
      source: string, a: seq<Replacement>, b: seq<Replacement>, from: nat, mid: nat, to: nat, left: string,
      right: string)
    requires Splices(source, a, from, mid, left) && Splices(source, b, mid, to, right)
    ensures Splices(source, a + b, from, to, left + right)
  {
    FitsOrders(a, from, mid);
    FitsOrders(b, mid, to);
    if a == [] {
      assert a + b == b;
      SplicesFrom(source, b, from, mid, to);
    } else {
      var (span, text) := a[0];
      var ab := a + b;
      assert ab[0] == a[0] && ab[1..] == a[1..] + b;
      FitsOrders(a[1..], span.end, mid);
      var rest := Splice(source, a[1..], span.end, mid);
      SplicesConcat(source, a[1..], b, span.end, mid, to, rest, right);
      Regrouped(source[from..span.start], text, rest, right);
    }
  }

  lemma {:induction false} Sliced(source: string, from: nat, mid: nat, to: nat)
    requires from <= mid <= to <= |source|
    ensures source[from..to] == source[from..mid] + source[mid..to]
  {
  }

  /** What is copied before the first replacement may be longer. */
  lemma {:induction false} SplicesFrom(source: string, replacements: seq<Replacement>, from: nat, mid: nat, to: nat)
    requires from <= mid <= to <= |source| && Fits(replacements, mid, to)
    ensures Splices(source, replacements, from, to, source[from..mid] + Splice(source, replacements, mid, to))
  {
    if replacements == [] {
      Sliced(source, from, mid, to);
    } else {
      var (span, text) := replacements[0];
      FitsOrders(replacements[1..], span.end, to);
      Sliced(source, from, mid, span.start);
      Regrouped(source[from..mid], source[mid..span.start], text, Splice(source, replacements[1..], span.end, to));
    }
  }

  // --- The splice is the rewritten tree ---------------------------------

  lemma {:induction false} Copied(source: string, at: nat, text: string)
    requires Holds(source, at, text)
    ensures Splices(source, [], at, at + |text|, text)
  {
  }

  lemma {:induction false} Replaced(source: string, at: nat, to: nat, text: string)
    requires at <= to <= |source|
    ensures Splices(source, [(Span(at, to), text)], at, to, text)
  {
    var one := [(Span(at, to), text)];
    assert one[1..] == [];
    assert source[at..at] + text + source[to..to] == text;
  }

  lemma {:induction false} LiteralSplices(literal: Literal, at: nat, source: string)
    requires Covers(literal.span, at, |literal.written|) && Holds(source, at, literal.written)
    ensures Splices(source, LiteralReplacements(literal), at, at + |literal.written|, RewriteLiteral(literal).written)
  {
    if literal.kind == Octal {
      Replaced(source, at, at + |literal.written|, Text(NulConstruct));
    } else {
      Copied(source, at, literal.written);
    }
  }

  lemma {:induction false} PerlSplices(perl: Perl, at: nat, source: string)
    requires Covers(perl.span, at, 2) && at + 2 <= |source|
    ensures Splices(source, Replacements(PerlAst(perl)), at, at + 2, PrintBracketed(PerlClass(perl.kind, perl.negated)))
  {
    Replaced(source, at, at + 2, Text(PerlConstruct(perl.kind, perl.negated)));
    PerlClassPrints(perl.kind, perl.negated);
  }

  lemma {:induction false} ItemSplices(item: ClassItem, at: nat, source: string)
    requires LaidItem(item, at) && Holds(source, at, PrintItem(item))
    ensures Splices(source, ItemReplacements(item), at, at + |PrintItem(item)|, PrintItem(RewriteItem(item)))
    decreases item
  {
    hide Splice, Fits, Splices;
    match item
    case LiteralItem(literal) => LiteralSplices(literal, at, source);
    case RangeItem(lo, hi) => RangeSplices(lo, hi, at, source);
    case PerlItem(perl) => PerlSplices(perl, at, source);
    case UnionItem(items) => ItemsSplice(items, at, source);
    case _ => Copied(source, at, PrintItem(item));
  }

  lemma {:induction false} RangeSplices(lo: Literal, hi: Literal, at: nat, source: string)
    requires LaidItem(RangeItem(lo, hi), at) && Holds(source, at, lo.written + "-" + hi.written)
    ensures Splices(source, LiteralReplacements(lo) + LiteralReplacements(hi), at, at + |lo.written| + 1 + |hi.written|,
                    RewriteLiteral(lo).written + "-" + RewriteLiteral(hi).written)
  {
    hide Splice, Fits, Splices, Replacements;
    var dash := at + |lo.written|;
    HoldsParts(source, at, lo.written + "-", hi.written);
    HoldsParts(source, at, lo.written, "-");
    LiteralSplices(lo, at, source);
    Copied(source, dash, "-");
    LiteralSplices(hi, dash + 1, source);
    SplicesConcat(source, LiteralReplacements(lo), [], at, dash, dash + 1, RewriteLiteral(lo).written, "-");
    assert LiteralReplacements(lo) + [] == LiteralReplacements(lo);
    SplicesConcat(source, LiteralReplacements(lo), LiteralReplacements(hi), at, dash + 1, dash + 1 + |hi.written|,
                  RewriteLiteral(lo).written + "-", RewriteLiteral(hi).written);
  }

  lemma {:induction false} ItemsSplice(items: seq<ClassItem>, at: nat, source: string)
    requires LaidItems(items, at) && Holds(source, at, PrintItems(items))
    ensures Splices(source, ItemsReplacements(items), at, at + |PrintItems(items)|, PrintItems(RewriteItems(items)))
    decreases items
  {
    hide LaidItem, PrintItem, RewriteItem, ItemReplacements, Splice, Fits;
    if items == [] {
      Copied(source, at, "");
    } else {
      var first, rest := PrintItem(items[0]), PrintItems(items[1..]);
      HoldsParts(source, at, first, rest);
      ItemSplices(items[0], at, source);
      ItemsSplice(items[1..], at + |first|, source);
      SplicesConcat(source, ItemReplacements(items[0]), ItemsReplacements(items[1..]),
        at, at + |first|, at + |first| + |rest|,
                    PrintItem(RewriteItem(items[0])), PrintItems(RewriteItems(items[1..])));
      assert RewriteItems(items)[1..] == RewriteItems(items[1..]);
      Unfold(RewriteItems(items));
    }
  }

  lemma {:induction false} BracketedSplices(bracketed: Bracketed, at: nat, source: string)
    requires LaidBracketed(bracketed, at) && Holds(source, at, PrintBracketed(bracketed))
    ensures Splices(source, Replacements(BracketedAst(bracketed)), at, at + |PrintBracketed(bracketed)|,
                    PrintBracketed(RewriteBracketed(bracketed)))
  {
    hide Splice, Fits, Splices, ItemReplacements, RewriteItem, LaidItem;
    var open, inner := Opening(bracketed), PrintSet(bracketed.members);
    if bracketed.members.ItemSet? {
      HoldsParts(source, at, open + inner, "]");
      HoldsParts(source, at, open, inner);
      ItemSplices(bracketed.members.item, at + |open|, source);
      Enclosed(source, ItemReplacements(bracketed.members.item), at, open, inner, "]",
        PrintItem(RewriteItem(bracketed.members.item)));
    } else {
      Copied(source, at, PrintBracketed(bracketed));
    }
  }

  /** Text copied before a splice, and on either side of one. */
  lemma {:induction false} Preceded(
      source: string, replacements: seq<Replacement>, at: nat, open: string, to: nat, text: string)
    requires Holds(source, at, open) && Splices(source, replacements, at + |open|, to, text)
    ensures Splices(source, replacements, at, to, open + text)
  {
    Copied(source, at, open);
    SplicesConcat(source, [], replacements, at, at + |open|, to, open, text);
    assert [] + replacements == replacements;
  }

  lemma {:induction false} Enclosed(
      source: string, replacements: seq<Replacement>, at: nat, open: string, inner: string, close: string,
      text: string)
    requires Holds(source, at, open) && Holds(source, at + |open| + |inner|, close)
    requires Splices(source, replacements, at + |open|, at + |open| + |inner|, text)
    ensures Splices(source, replacements, at, at + |open| + |inner| + |close|, open + text + close)
  {
    var to := at + |open| + |inner|;
    Preceded(source, replacements, at, open, to, text);
    Copied(source, to, close);
    SplicesConcat(source, replacements, [], at, to, to + |close|, open + text, close);
    assert replacements + [] == replacements;
  }

  /** What SpliceIsRewrite says of one tree. */
  ghost predicate SplicesTo(ast: Ast, at: nat, source: string) {
    Splices(source, Replacements(ast), at, at + |Print(ast)|, Print(Rewrite(ast)))
  }

  lemma {:induction false} LeafSplices(ast: Ast, at: nat, source: string)
    requires ast.Empty? || ast.Flags? || ast.UnicodeAst? || ast.LiteralAst? || ast.BracketedAst?
    requires Laid(ast, at) && Holds(source, at, Print(ast))
    ensures SplicesTo(ast, at, source)
  {
    match ast
    case LiteralAst(literal) => LiteralSplices(literal, at, source);
    case BracketedAst(bracketed) => BracketedSplices(bracketed, at, source);
    case _ => Copied(source, at, Print(ast));
  }

  lemma {:induction false} DotSplices(ast: Ast, at: nat, source: string)
    requires ast.Dot? && Laid(ast, at) && Holds(source, at, Print(ast))
    ensures SplicesTo(ast, at, source)
  {
    hide Splice, Fits, Splices;
    Replaced(source, at, at + 1, Text(DotConstruct));
    DotClassPrints();
  }

  lemma {:induction false} PerlAstSplices(ast: Ast, at: nat, source: string)
    requires ast.PerlAst? && Laid(ast, at) && Holds(source, at, Print(ast))
    ensures SplicesTo(ast, at, source)
  {
    hide Splice, Fits, Splices;
    PerlSplices(ast.perl, at, source);
  }

  lemma {:induction false} RepetitionSplices(ast: Ast, at: nat, source: string)
    requires ast.Repetition? && Holds(source, at, Print(ast)) && SplicesTo(ast.sub, at, source)
    ensures SplicesTo(ast, at, source)
  {
    hide Splice, Fits;
    var sub, written := Print(ast.sub), PrintOp(ast.op);
    HoldsParts(source, at, sub, written);
    assert Holds(source, at, "");
    Enclosed(source, Replacements(ast.sub), at, "", sub, written, Print(Rewrite(ast.sub)));
    assert "" + Print(Rewrite(ast.sub)) == Print(Rewrite(ast.sub));
  }

  lemma {:induction false} GroupSplices(ast: Ast, at: nat, source: string)
    requires ast.Group? && Holds(source, at, Print(ast)) && SplicesTo(ast.sub, at + |GroupOpening(ast.kind)|, source)
    ensures SplicesTo(ast, at, source)
  {
    hide Splice, Fits;
    var open, sub := GroupOpening(ast.kind), Print(ast.sub);
    HoldsParts(source, at, open + sub, ")");
    HoldsParts(source, at, open, sub);
    Enclosed(source, Replacements(ast.sub), at, open, sub, ")", Print(Rewrite(ast.sub)));
  }

  /** The main property: every untouched character is copied once and in order,
      and every rewritten leaf is replaced. */
  lemma {:induction false} SpliceIsRewrite(ast: Ast, at: nat, source: string)
    requires Laid(ast, at) && Holds(source, at, Print(ast))
    ensures SplicesTo(ast, at, source)
    decreases ast, 1
  {
    hide SplicesTo, Splice, Fits, Replacements, Rewrite, PrintOp, PrintAssertion, PrintPerl, PrintUnicode,
      PrintBracketed, LaidBracketed;
    match ast
    case Dot(_) => DotSplices(ast, at, source);
    case Assertion(_, _) => AssertionSplices(ast, at, source);
    case PerlAst(_) => PerlAstSplices(ast, at, source);
    case Repetition(op, sub) =>
      HoldsParts(source, at, Print(sub), PrintOp(op));
      SpliceIsRewrite(sub, at, source);
      RepetitionSplices(ast, at, source);
    case Group(kind, sub) =>
      HoldsParts(source, at, GroupOpening(kind) + Print(sub), ")");
      HoldsParts(source, at, GroupOpening(kind), Print(sub));
      SpliceIsRewrite(sub, at + |GroupOpening(kind)|, source);
      GroupSplices(ast, at, source);
    case Alternation(_) => SequenceSplices(ast, at, source);
    case Concat(_) => SequenceSplices(ast, at, source);
    case _ => LeafSplices(ast, at, source);
  }

  lemma {:induction false} SequenceSplices(ast: Ast, at: nat, source: string)
    requires ast.Alternation? || ast.Concat?
    requires Laid(ast, at) && Holds(source, at, Print(ast))
    ensures SplicesTo(ast, at, source)
    decreases ast, 0
  {
    hide Splice, Fits;
    if ast.Alternation? {
      AlternativesSplice(ast.asts, at, source);
    } else {
      AllSplice(ast.asts, at, source);
    }
  }

  lemma {:induction false} AssertionSplices(ast: Ast, at: nat, source: string)
    requires ast.Assertion? && Laid(ast, at) && Holds(source, at, Print(ast))
    ensures SplicesTo(ast, at, source)
  {
    AsciiBoundaryPrints(ast.span);
    match ast.assertion
    case WordBoundary => Replaced(source, at, at + 2, Text(BoundaryConstruct(false)));
    case NotWordBoundary => Replaced(source, at, at + 2, Text(BoundaryConstruct(true)));
    case _ => Copied(source, at, PrintAssertion(ast.assertion));
  }

  lemma {:induction false} AllSplice(asts: seq<Ast>, at: nat, source: string)
    requires LaidAll(asts, at) && Holds(source, at, PrintAll(asts))
    ensures Splices(source, AllReplacements(asts), at, at + |PrintAll(asts)|, PrintAll(RewriteAll(asts)))
    decreases asts
  {
    hide Laid, Print, Rewrite, Replacements, Splice, Fits;
    if asts == [] {
      Copied(source, at, "");
    } else {
      var first, rest := Print(asts[0]), PrintAll(asts[1..]);
      HoldsParts(source, at, first, rest);
      SpliceIsRewrite(asts[0], at, source);
      AllSplice(asts[1..], at + |first|, source);
      SplicesConcat(source, Replacements(asts[0]), AllReplacements(asts[1..]), at, at + |first|, at + |first| + |rest|,
                    Print(Rewrite(asts[0])), PrintAll(RewriteAll(asts[1..])));
      assert RewriteAll(asts)[1..] == RewriteAll(asts[1..]);
    }
  }

  lemma {:induction false} AlternativesSplice(asts: seq<Ast>, at: nat, source: string)
    requires LaidAlternatives(asts, at) && Holds(source, at, PrintAlternatives(asts))
    ensures Splices(source, AllReplacements(asts), at, at + |PrintAlternatives(asts)|,
                    PrintAlternatives(RewriteAll(asts)))
    decreases asts, 1
  {
    hide Laid, Print, Rewrite, Replacements, Splice, Fits;
    if asts == [] {
      Copied(source, at, "");
    } else {
      var first, rest := Print(asts[0]), PrintMore(asts[1..]);
      HoldsParts(source, at, first, rest);
      SpliceIsRewrite(asts[0], at, source);
      MoreSplice(asts[1..], at + |first|, source);
      SplicesConcat(source, Replacements(asts[0]), AllReplacements(asts[1..]), at, at + |first|, at + |first| + |rest|,
                    Print(Rewrite(asts[0])), PrintMore(RewriteAll(asts[1..])));
      assert RewriteAll(asts)[1..] == RewriteAll(asts[1..]);
    }
  }

  lemma {:induction false} MoreSplice(asts: seq<Ast>, at: nat, source: string)
    requires LaidMore(asts, at) && Holds(source, at, PrintMore(asts))
    ensures Splices(source, AllReplacements(asts), at, at + |PrintMore(asts)|, PrintMore(RewriteAll(asts)))
    decreases asts, 0
  {
    hide Laid, Print, Rewrite, Replacements, Splice, Fits;
    if asts == [] {
      Copied(source, at, "");
    } else {
      var first, rest := Print(asts[0]), PrintMore(asts[1..]);
      HoldsParts(source, at, "|" + first, rest);
      HoldsParts(source, at, "|", first);
      SpliceIsRewrite(asts[0], at + 1, source);
      MoreSplice(asts[1..], at + 1 + |first|, source);
      Preceded(source, Replacements(asts[0]), at, "|", at + 1 + |first|, Print(Rewrite(asts[0])));
      SplicesConcat(source, Replacements(asts[0]), AllReplacements(asts[1..]),
        at, at + 1 + |first|, at + 1 + |first| + |rest|,
                    "|" + Print(Rewrite(asts[0])), PrintMore(RewriteAll(asts[1..])));
      assert RewriteAll(asts)[1..] == RewriteAll(asts[1..]);
    }
  }
}
