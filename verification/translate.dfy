/** The pure lookup engine behind `t`: plural key selection, placeholder
    substitution and the fallback to the raw key, over one locale's table. */
module Translate {
  import opened Wrappers
  import opened Strings
  import opened Numerals
  import opened Entries
  import opened LocaleTree

  /** 10^21: from this magnitude on, JavaScript's `String(n)` switches to
      exponent notation. */
  const ExponentThreshold: int := 1_000_000_000_000_000_000_000

  /** The integers `String()` writes out digit by digit. */
  type PrintableInt = n: int | -ExponentThreshold < n < ExponentThreshold

  /** A substitution value: `t` accepts `string | number`. */
  datatype ParamValue = Str(s: string) | Num(n: PrintableInt)

  /** The entries of a parameter object, in iteration order. */
  type ParamEntries = seq<(string, ParamValue)>

  /** A parameter object: its names are distinct. */
  type Params = ps: ParamEntries | UniqueKeys(ps) witness []

  /** The exceptions `t` can raise. */
  datatype JsError = TypeError | SyntaxError

  /** What `t` hands back: a string, the sub-table itself when the key names
      an inner node and there are no parameters, or a thrown exception. */
  datatype Translation = Text(s: string) | Subtree(tree: LocaleData) | Thrown(error: JsError)

  const CountParam: string := "count"
  const PluralSuffix: string := "_plural"

  /** `String(v)`. */
  function Stringify(v: ParamValue): string {
    match v
    case Str(s) => s
    case Num(n) => IntToString(n)
  }

  /** `Number(v)`, where it is an integer this model covers. */
  function NumberValue(v: ParamValue): Option<int> {
    match v
    case Str(s) => NumberOf(s)
    case Num(n) => Some(n)
  }

  /** `t`'s plural test: there is a `count` entry and `Number(count) > 1`. */
  predicate PluralRequested(ps: Params) {
    var c := Lookup(ps, CountParam);
    c.Some? && NumberValue(c.value).Some? && NumberValue(c.value).value > 1
  }

  /** The key `t` resolves: the `_plural` sibling when a plural is requested
      and that sibling resolves to something true, otherwise the key itself. */
  function SelectKey(data: LocaleData, key: string, ps: Params): (k: string)
    ensures k == key + PluralSuffix <==>
      PluralRequested(ps) && Truthy(GetNested(data, key + PluralSuffix))
    ensures k != key + PluralSuffix ==> k == key
  {
    if PluralRequested(ps) && Truthy(GetNested(data, key + PluralSuffix)) then key + PluralSuffix else key
  }

  /** The text `{name}` that the parameter `name` replaces. */
  function Placeholder(name: string): string {
    "{" + name + "}"
  }

  /** A plain identifier: a letter or `_` followed by letters, digits and
      `_`. Such names are matched literally by `t`'s regular
      expression and contain no braces. */
  predicate IsPlainName(name: string) {
    && |name| > 0
    && !IsDigit(name[0])
    && forall i :: 0 <= i < |name| ==>
         ('a' <= name[i] <= 'z' || 'A' <= name[i] <= 'Z' || IsDigit(name[i]) || name[i] == '_')
  }

  /** A name that makes `{name}` a braced quantifier, `{n}`, `{n,}` or
      `{n,m}`: with nothing before it to repeat, `new RegExp` rejects it
      with a `SyntaxError`. */
  predicate FormsQuantifier(name: string) {
    || (|name| > 0 && AllDigits(name))
    || exists k :: 0 < k < |name| && name[k] == ',' && AllDigits(name[..k]) && AllDigits(name[k + 1..])
  }

  /** Some parameter name makes `t`'s `new RegExp` throw. */
  predicate HasQuantifierName(ps: ParamEntries) {
    exists i :: 0 <= i < |ps| && FormsQuantifier(ps[i].0)
  }

  /** Every parameter name is a plain identifier. */
  predicate AllPlainNames(ps: ParamEntries) {
    forall i :: 0 <= i < |ps| ==> IsPlainName(ps[i].0)
  }

  /** A plain identifier never forms a quantifier: it cannot start with a
      digit. */
  lemma PlainNameIsNoQuantifier(name: string)
    requires IsPlainName(name)
    ensures !FormsQuantifier(name)
  {
    forall k | 0 < k < |name| ensures !AllDigits(name[..k]) {
      assert name[..k][0] == name[0];
    }
  }

  /** Replaces every `{name}` by `String(value)`, one parameter at a time in
      iteration order, each pass working on the previous pass's output. A
      text holding none of the placeholders comes back unchanged. */
  function Substitute(text: string, ps: ParamEntries): (r: string)
    ensures (forall i :: 0 <= i < |ps| ==> !Occurs(text, Placeholder(ps[i].0))) ==> r == text
    decreases |ps|
  {
    if |ps| == 0 then text
    else
      var next := ReplaceAll(text, Placeholder(ps[0].0), Stringify(ps[0].1));
      assert (forall i :: 0 <= i < |ps| ==> !Occurs(text, Placeholder(ps[i].0))) ==>
             next == text && (forall i :: 0 <= i < |ps[1..]| ==> !Occurs(next, Placeholder(ps[1..][i].0))) by {
        if forall i :: 0 <= i < |ps| ==> !Occurs(text, Placeholder(ps[i].0)) {
          assert !Occurs(text, Placeholder(ps[0].0));
          ReplaceAllAbsent(text, Placeholder(ps[0].0), Stringify(ps[0].1));
          forall i | 0 <= i < |ps[1..]| ensures !Occurs(next, Placeholder(ps[1..][i].0)) {
            assert ps[1..][i] == ps[i + 1];
          }
        }
      }
      Substitute(next, ps[1..])
  }

  /** `t` once the locale's table is known: select the key, look it up, fall
      back to the requested key when nothing true is found, and substitute
      the parameters into a found leaf. Building the pattern for a
      quantifier-shaped name throws a `SyntaxError`; calling `.replace` on
      an inner node throws a `TypeError`. */
  function Resolve(data: LocaleData, key: string, ps: Params): (r: Translation)
    ensures !Truthy(GetNested(data, SelectKey(data, key, ps))) ==> r == Text(key)
    ensures r.Thrown? ==> |ps| > 0
    ensures r == Thrown(SyntaxError) ==> HasQuantifierName(ps)
    ensures r.Subtree? ==> |ps| == 0 && r.tree.Node?
  {
    var v := GetNested(data, SelectKey(data, key, ps));
    if !Truthy(v) then Text(key)
    else match v.value
      case Leaf(s) => if HasQuantifierName(ps) then Thrown(SyntaxError) else Text(Substitute(s, ps))
      case Node(_) =>
        if |ps| == 0 then Subtree(v.value)
        else if FormsQuantifier(ps[0].0) then Thrown(SyntaxError)
        else Thrown(TypeError)
  }

  /** Substituting a concatenation of parameter lists is substituting the
      first list and then the second: the fold is sequential. */
  lemma {:induction false} SubstituteAppend(s: string, a: ParamEntries, b: ParamEntries)
    ensures Substitute(s, a + b) == Substitute(Substitute(s, a), b)
    decreases |a|
  {
    if |a| == 0 {
      assert a + b == b;
    } else {
      assert (a + b)[0] == a[0];
      assert (a + b)[1..] == a[1..] + b;
      SubstituteAppend(ReplaceAll(s, Placeholder(a[0].0), Stringify(a[0].1)), a[1..], b);
    }
  }

  /** A parameter whose placeholder is absent from the text it is applied to
      has no effect: dropping it gives the same result. */
  lemma SubstituteUnusedParam(s: string, pre: ParamEntries, p: (string, ParamValue), post: ParamEntries)
    requires !Occurs(Substitute(s, pre), Placeholder(p.0))
    ensures Substitute(s, pre + [p] + post) == Substitute(s, pre + post)
  {
    var mid := Substitute(s, pre);
    SubstituteAppend(s, pre, [p] + post);
    SubstituteAppend(s, pre, post);
    assert pre + [p] + post == pre + ([p] + post);
    ReplaceAllAbsent(mid, Placeholder(p.0), Stringify(p.1));
    assert ([p] + post)[1..] == post;
  }

  /** A single parameter replaces exactly the occurrences of its
      placeholder: the result is the text split at `{name}` and rejoined
      with the value. */
  lemma SubstituteOne(s: string, name: string, v: ParamValue)
    ensures Substitute(s, [(name, v)]) == Join(Split(s, Placeholder(name)), Stringify(v))
  {
    ReplaceAllIsSplitJoin(s, Placeholder(name), Stringify(v));
  }

  /** The first `}` of a text that begins with `{a}`, for a plain `a`, is
      the one closing that placeholder. */
  lemma ClosingBraceOfPlaceholder(s: string, a: string)
    requires IsPlainName(a)
    requires StartsWith(s, Placeholder(a))
    ensures IndexOf(s, '}') == |a| + 1
  {
    var pa := Placeholder(a);
    forall k | 0 <= k < |a| + 1 ensures s[k] != '}' {
      assert s[k] == pa[k];
      if k > 0 {
        assert pa[k] == a[k - 1];
      }
    }
    assert s[|a| + 1] == pa[|a| + 1];
  }

  /** A text begins with at most one plain placeholder. */
  lemma SamePlaceholderPrefix(s: string, a: string, x: string)
    requires IsPlainName(a) && IsPlainName(x)
    requires StartsWith(s, Placeholder(a)) && StartsWith(s, Placeholder(x))
    ensures a == x
  {
    ClosingBraceOfPlaceholder(s, a);
    ClosingBraceOfPlaceholder(s, x);
    assert a == Placeholder(a)[1..|a| + 1] == s[1..|a| + 1];
    assert x == Placeholder(x)[1..|x| + 1] == s[1..|x| + 1];
  }

  /** Two placeholders of different plain names cannot start at the same
      index. */
  lemma PlaceholdersDiffer(s: string, a: string, x: string)
    requires IsPlainName(a) && IsPlainName(x) && a != x
    requires StartsWith(s, Placeholder(a))
    ensures !StartsWith(s, Placeholder(x))
  {
    if StartsWith(s, Placeholder(x)) {
      SamePlaceholderPrefix(s, a, x);
    }
  }

  /** An occurrence of `{x}` cannot overlap a leading `{a}`: it starts after it. */
  lemma MatchAfterPlaceholder(s: string, a: string, x: string, i: nat)
    requires IsPlainName(a) && IsPlainName(x) && a != x
    requires StartsWith(s, Placeholder(a))
    requires MatchesAt(s, Placeholder(x), i)
    ensures i >= |Placeholder(a)|
  {
    var pa, px := Placeholder(a), Placeholder(x);
    if i < |pa| {
      assert s[i] == px[0] == '{';
      assert s[i] == pa[i];
      if i == 0 {
        assert s[..|px|] == s[i..i + |px|];
        PlaceholdersDiffer(s, a, x);
      }
    }
  }

  /** An occurrence survives having text put in front of it. */
  lemma OccursAfterPrefix(pre: string, r: string, pat: string)
    requires Occurs(r, pat)
    ensures Occurs(pre + r, pat)
  {
    var j: nat :| j <= |r| && MatchesAt(r, pat, j);
    assert (pre + r)[|pre| + j..|pre| + j + |pat|] == r[j..j + |pat|];
    assert MatchesAt(pre + r, pat, |pre| + j);
  }

  /** An occurrence at or after index `k` is an occurrence in `s[k..]`. */
  lemma OccursInSuffix(s: string, pat: string, i: nat, k: nat)
    requires MatchesAt(s, pat, i) && k <= i
    ensures Occurs(s[k..], pat)
  {
    assert s[k..][i - k..i - k + |pat|] == s[i..i + |pat|];
    assert MatchesAt(s[k..], pat, i - k);
  }

  /** A leading `{x}` is left alone by replacing `{a}` for another plain
      name `a`: `{x}` does not begin with `{a}` and the rest of it holds no
      `{`. */
  lemma ReplaceLeadingPlaceholder(w: string, a: string, x: string, rep: string)
    requires IsPlainName(a) && IsPlainName(x) && a != x
    ensures ReplaceAll(Placeholder(x) + w, Placeholder(a), rep) == Placeholder(x) + ReplaceAll(w, Placeholder(a), rep)
  {
    var pa, px := Placeholder(a), Placeholder(x);
    var s := px + w;
    var body := x + "}";
    PlaceholderBodyOpenFree(x);
    assert pa[0] == '{';
    if |s| >= |pa| {
      PlaceholdersDiffer(s, x, a);
    }
    assert ReplaceAll(s, pa, rep) == [s[0]] + ReplaceAll(s[1..], pa, rep);
    assert s[1..] == body + w;
    ReplaceAllSkipsPrefix(body, w, pa, rep);
    assert [s[0]] + (body + ReplaceAll(w, pa, rep)) == px + ReplaceAll(w, pa, rep);
  }

  /** What follows the `{` of a plain placeholder holds no `{`. */
  lemma PlaceholderBodyOpenFree(x: string)
    requires IsPlainName(x)
    ensures !HasChar(x + "}", '{')
  {
    var body := x + "}";
    forall k | 0 <= k < |body| ensures body[k] != '{' {
      if k < |x| {
        assert body[k] == x[k];
      }
    }
  }

  /** A text that begins with `{x}` still begins with it after `{a}` is
      replaced. */
  lemma LeadingPlaceholderKept(s: string, a: string, x: string, rep: string)
    requires IsPlainName(a) && IsPlainName(x) && a != x
    requires StartsWith(s, Placeholder(x))
    ensures StartsWith(ReplaceAll(s, Placeholder(a), rep), Placeholder(x))
  {
    var px := Placeholder(x);
    var after := s[|px|..];
    assert s == px + after;
    ReplaceLeadingPlaceholder(after, a, x, rep);
    var out := px + ReplaceAll(after, Placeholder(a), rep);
    assert out[..|px|] == px;
  }

  /** Replacing `{a}` never destroys an occurrence of `{x}` for another plain
      name `x`. */
  lemma {:induction false} ReplaceKeepsPlaceholder(s: string, a: string, x: string, rep: string)
    requires IsPlainName(a) && IsPlainName(x) && a != x
    requires Occurs(s, Placeholder(x))
    ensures Occurs(ReplaceAll(s, Placeholder(a), rep), Placeholder(x))
    decreases |s|
  {
    var pa, px := Placeholder(a), Placeholder(x);
    var i: nat :| i <= |s| && MatchesAt(s, px, i);
    if |s| < |pa| {
    } else if StartsWith(s, pa) {
      MatchAfterPlaceholder(s, a, x, i);
      OccursInSuffix(s, px, i, |pa|);
      ReplaceKeepsPlaceholder(s[|pa|..], a, x, rep);
      OccursAfterPrefix(rep, ReplaceAll(s[|pa|..], pa, rep), px);
    } else if i > 0 {
      OccursInSuffix(s, px, i, 1);
      ReplaceKeepsPlaceholder(s[1..], a, x, rep);
      OccursAfterPrefix([s[0]], ReplaceAll(s[1..], pa, rep), px);
    } else {
      assert s[..|px|] == s[i..i + |px|];
      LeadingPlaceholderKept(s, a, x, rep);
      assert MatchesAt(ReplaceAll(s, pa, rep), px, 0);
    }
  }

  /** Replacing `{a}` works independently on the two sides of a `{x}` for
      another plain name `x`: no occurrence of `{a}` overlaps `{x}`. */
  lemma {:induction false} ReplaceAroundPlaceholder(p: string, w: string, a: string, x: string, rep: string)
    requires IsPlainName(a) && IsPlainName(x) && a != x
    ensures ReplaceAll(p + Placeholder(x) + w, Placeholder(a), rep)
         == ReplaceAll(p, Placeholder(a), rep) + Placeholder(x) + ReplaceAll(w, Placeholder(a), rep)
    decreases |p|
  {
    var pa, px := Placeholder(a), Placeholder(x);
    var t := p + px + w;
    if |p| == 0 {
      assert t == px + w;
      ReplaceLeadingPlaceholder(w, a, x, rep);
    } else if |t| < |pa| {
      assert ReplaceAll(p, pa, rep) == p;
      assert ReplaceAll(w, pa, rep) == w;
    } else if StartsWith(t, pa) {
      ReplaceAroundLeadingMatch(p, w, a, x);
      ReplaceAroundPlaceholder(p[|pa|..], w, a, x, rep);
      ReplaceAllMatchAround(p, px, w, pa, rep);
    } else {
      ReplaceAroundPlaceholder(p[1..], w, a, x, rep);
      ReplaceAllCopyAround(p, px, w, pa, rep);
    }
  }

  /** A match of `{a}` at the start of `p + {x} + w` lies wholly inside `p`. */
  lemma ReplaceAroundLeadingMatch(p: string, w: string, a: string, x: string)
    requires IsPlainName(a) && IsPlainName(x) && a != x
    requires StartsWith(p + Placeholder(x) + w, Placeholder(a))
    ensures |Placeholder(a)| <= |p|
    ensures StartsWith(p, Placeholder(a))
    ensures (p + Placeholder(x) + w)[|Placeholder(a)|..] == p[|Placeholder(a)|..] + Placeholder(x) + w
  {
    var pa, px := Placeholder(a), Placeholder(x);
    var t := p + px + w;
    assert MatchesAt(t, px, |p|) by {
      assert t[|p|..|p| + |px|] == px;
    }
    MatchAfterPlaceholder(t, a, x, |p|);
    assert p[..|pa|] == t[..|pa|];
  }

  /** Replacing `{a}` in a text joined at `{x}` replaces it in each piece. */
  lemma {:induction false} ReplaceJoin(parts: seq<string>, a: string, x: string, rep: string)
    requires IsPlainName(a) && IsPlainName(x) && a != x
    requires |parts| >= 1
    ensures ReplaceAll(Join(parts, Placeholder(x)), Placeholder(a), rep)
         == Join(ReplaceEach(parts, Placeholder(a), rep), Placeholder(x))
    decreases |parts|
  {
    var pa, px := Placeholder(a), Placeholder(x);
    var r := ReplaceEach(parts, pa, rep);
    if |parts| > 1 {
      ReplaceAroundPlaceholder(parts[0], Join(parts[1..], px), a, x, rep);
      ReplaceJoin(parts[1..], a, x, rep);
      assert ReplaceEach(parts[1..], pa, rep) == r[1..];
    }
  }

  /** Each piece with `pat` replaced by `rep`. */
  function ReplaceEach(parts: seq<string>, pat: string, rep: string): (r: seq<string>)
    requires |pat| > 0
    ensures |r| == |parts|
    ensures forall k :: 0 <= k < |parts| ==> r[k] == ReplaceAll(parts[k], pat, rep)
  {
    seq(|parts|, k requires 0 <= k < |parts| => ReplaceAll(parts[k], pat, rep))
  }

  /** Each piece with the parameters substituted. */
  function SubstituteEach(parts: seq<string>, ps: ParamEntries): (r: seq<string>)
    ensures |r| == |parts|
    ensures forall k :: 0 <= k < |parts| ==> r[k] == Substitute(parts[k], ps)
  {
    seq(|parts|, k requires 0 <= k < |parts| => Substitute(parts[k], ps))
  }

  /** Substituting into a text joined at `{x}`, when no parameter is named
      `x`, substitutes into each piece and keeps every `{x}`. */
  lemma {:induction false} SubstituteJoin(parts: seq<string>, ps: ParamEntries, x: string)
    requires IsPlainName(x) && AllPlainNames(ps)
    requires forall i :: 0 <= i < |ps| ==> ps[i].0 != x
    requires |parts| >= 1
    ensures Substitute(Join(parts, Placeholder(x)), ps) == Join(SubstituteEach(parts, ps), Placeholder(x))
    decreases |ps|
  {
    if |ps| == 0 {
      assert SubstituteEach(parts, ps) == parts;
    } else {
      var pa, rep := Placeholder(ps[0].0), Stringify(ps[0].1);
      ReplaceJoin(parts, ps[0].0, x, rep);
      var next := ReplaceEach(parts, pa, rep);
      assert forall i :: 0 <= i < |ps[1..]| ==> ps[1..][i] == ps[i + 1];
      SubstituteJoin(next, ps[1..], x);
      assert SubstituteEach(next, ps[1..]) == SubstituteEach(parts, ps);
    }
  }

  /** A placeholder with no parameter of its name stays literal in the
      result, and the text around each of its occurrences is substituted on
      its own: the result is the text split at `{x}`, each piece
      substituted, joined back with `{x}`. */
  lemma SubstituteKeepsUnmatched(s: string, ps: ParamEntries, x: string)
    requires IsPlainName(x) && AllPlainNames(ps)
    requires forall i :: 0 <= i < |ps| ==> ps[i].0 != x
    ensures Substitute(s, ps) == Join(SubstituteEach(Split(s, Placeholder(x)), ps), Placeholder(x))
  {
    JoinSplit(s, Placeholder(x));
    SubstituteJoin(Split(s, Placeholder(x)), ps, x);
  }

  /** A placeholder with no parameter of its name survives substitution:
      an occurrence of `{x}` in the text is one in the result. */
  lemma {:induction false} SubstituteKeepsOccurrence(s: string, ps: ParamEntries, x: string)
    requires IsPlainName(x) && AllPlainNames(ps)
    requires forall i :: 0 <= i < |ps| ==> ps[i].0 != x
    requires Occurs(s, Placeholder(x))
    ensures Occurs(Substitute(s, ps), Placeholder(x))
    decreases |ps|
  {
    if |ps| > 0 {
      ReplaceKeepsPlaceholder(s, ps[0].0, x, Stringify(ps[0].1));
      assert forall i :: 0 <= i < |ps[1..]| ==> ps[1..][i] == ps[i + 1];
      SubstituteKeepsOccurrence(ReplaceAll(s, Placeholder(ps[0].0), Stringify(ps[0].1)), ps[1..], x);
    }
  }

  /** A `count` of at most one, or no `count` at all, never selects the
      plural key. */
  lemma SmallCountIsSingular(data: LocaleData, key: string, ps: Params)
    requires Lookup(ps, CountParam).None? ||
             (NumberValue(Lookup(ps, CountParam).value).Some? && NumberValue(Lookup(ps, CountParam).value).value <= 1)
    ensures SelectKey(data, key, ps) == key
  {
  }

  /** A requested plural whose key does not resolve falls back to the
      singular key. */
  lemma UnresolvedPluralIsSingular(data: LocaleData, key: string, ps: Params)
    requires !Truthy(GetNested(data, key + PluralSuffix))
    ensures SelectKey(data, key, ps) == key
  {
  }

  /** When neither the key nor its plural sibling resolves to something true
      (a missing segment, or an empty-string leaf), the raw key comes back,
      whatever the parameters. */
  lemma ResolveMissing(data: LocaleData, key: string, ps: Params)
    requires !Truthy(GetNested(data, key))
    requires !Truthy(GetNested(data, key + PluralSuffix))
    ensures Resolve(data, key, ps) == Text(key)
  {
  }

  /** A found leaf yields that leaf with the parameters substituted, unless
      a parameter name cannot be made into a pattern; with plain names it
      always does. */
  lemma ResolveLeaf(data: LocaleData, key: string, ps: Params, text: string)
    requires GetNested(data, SelectKey(data, key, ps)) == Some(Leaf(text))
    requires text != ""
    ensures Resolve(data, key, ps) ==
      if HasQuantifierName(ps) then Thrown(SyntaxError) else Text(Substitute(text, ps))
    ensures AllPlainNames(ps) ==> Resolve(data, key, ps) == Text(Substitute(text, ps))
  {
    if AllPlainNames(ps) {
      forall i | 0 <= i < |ps| ensures !FormsQuantifier(ps[i].0) {
        PlainNameIsNoQuantifier(ps[i].0);
      }
    }
  }

  /** A found inner node comes back as is without parameters; with
      parameters `t` throws, a `TypeError` when the first name is plain. */
  lemma ResolveInnerNode(data: LocaleData, key: string, ps: Params, m: map<string, LocaleData>)
    requires GetNested(data, SelectKey(data, key, ps)) == Some(Node(m))
    ensures Resolve(data, key, ps) ==
      if |ps| == 0 then Subtree(Node(m))
      else if FormsQuantifier(ps[0].0) then Thrown(SyntaxError)
      else Thrown(TypeError)
    ensures |ps| > 0 && IsPlainName(ps[0].0) ==> Resolve(data, key, ps) == Thrown(TypeError)
  {
    if |ps| > 0 && IsPlainName(ps[0].0) {
      PlainNameIsNoQuantifier(ps[0].0);
    }
  }

  /** Without parameters a found leaf comes back verbatim: no plural is
      selected and nothing is substituted. */
  lemma ResolveVerbatim(data: LocaleData, key: string, text: string)
    requires GetNested(data, key) == Some(Leaf(text))
    requires text != ""
    ensures Resolve(data, key, []) == Text(text)
  {
  }
}
