/** The string helpers of the utility service: character filtering, word
    capitalisation, slugs, message templating, phone prefixes, random codes
    and masking. Case mapping is the ASCII mapping of module Text. */
module Utils {
  import opened Results
  import opened Text

  // ---------------------------------------------------------------------------
  // validateString(request, 'char' | 'numeric')

  /** The two filtering modes of `validateString`; `'encode'` and `'decode'` are base64 and are not modelled. */
  datatype FilterKind = CharFilter | NumericFilter

  /** Whether a mode keeps a character: `'char'` removes `[^a-z\d\s]` case-insensitively, `'numeric'` removes `[^0-9]`. */
  predicate Keeps(kind: FilterKind, c: char) {
    match kind
    case CharFilter => IsLowerLetter(c) || IsUpperLetter(c) || IsDigit(c) || IsJsWhitespace(c)
    case NumericFilter => IsDigit(c)
  }

  function KeepOnly(kind: FilterKind, s: string): string
  {
    if s == [] then [] else (if Keeps(kind, s[0]) then [s[0]] else []) + KeepOnly(kind, s[1..])
  }

  function ValidateString(s: string, kind: FilterKind): string
  {
    if s == "" then "" else KeepOnly(kind, s)
  }

  lemma {:induction false} KeepOnlyAppend(kind: FilterKind, a: string, b: string)
    ensures KeepOnly(kind, a + b) == KeepOnly(kind, a) + KeepOnly(kind, b)
  {
    if a == [] {
      assert a + b == b;
    } else {
      assert (a + b)[0] == a[0];
      assert (a + b)[1..] == a[1..] + b;
      KeepOnlyAppend(kind, a[1..], b);
    }
  }

  /** The filter keeps every wanted character as often as it occurs and drops every other one. */
  lemma {:induction false} KeepOnlyCounts(kind: FilterKind, s: string)
    ensures forall c :: multiset(KeepOnly(kind, s))[c] == if Keeps(kind, c) then multiset(s)[c] else 0
  {
    if s != [] {
      KeepOnlyCounts(kind, s[1..]);
      assert s == [s[0]] + s[1..];
    }
  }

  /** `validateString` yields exactly the wanted characters of the input, in input order:
      it distributes over concatenation, keeps a wanted character and drops any other. */
  lemma ValidateStringIsFilter(kind: FilterKind, a: string, b: string, c: char)
    ensures ValidateString(a + b, kind) == ValidateString(a, kind) + ValidateString(b, kind)
    ensures ValidateString([c], kind) == if Keeps(kind, c) then [c] else []
    ensures forall x :: multiset(ValidateString(a, kind))[x] == if Keeps(kind, x) then multiset(a)[x] else 0
  {
    KeepOnlyAppend(kind, a, b);
    KeepOnlyCounts(kind, a);
    assert [c][1..] == [];
    assert KeepOnly(kind, []) == [];
  }

  lemma {:induction false} KeepOnlyIdempotent(kind: FilterKind, s: string)
    ensures KeepOnly(kind, KeepOnly(kind, s)) == KeepOnly(kind, s)
  {
    if s != [] {
      KeepOnlyIdempotent(kind, s[1..]);
      var head := if Keeps(kind, s[0]) then [s[0]] else [];
      KeepOnlyAppend(kind, head, KeepOnly(kind, s[1..]));
      if Keeps(kind, s[0]) {
        assert [s[0]][1..] == [];
      }
    }
  }

  lemma ValidateStringIdempotent(kind: FilterKind, s: string)
    ensures ValidateString(ValidateString(s, kind), kind) == ValidateString(s, kind)
  {
    KeepOnlyIdempotent(kind, s);
  }

  // ---------------------------------------------------------------------------
  // validateUpperCase

  /** `value.charAt(0).toUpperCase() + value.slice(1)` for one token. */
  function Capitalize(t: string): string
  {
    if t == "" then "" else [Upper(t[0])] + t[1..]
  }

  function ValidateUpperCase(s: string): string
  {
    if s == "" then "" else TokenWise(Capitalize, s)
  }

  /** Reference definition: a character is upper-cased exactly when it starts the
      string or follows a space; everything else is left as it is. */
  function CapitalizeWords(s: string): (r: string)
  {
    seq(|s|, i requires 0 <= i < |s| => if i == 0 || s[i - 1] == ' ' then Upper(s[i]) else s[i])
  }

  lemma CapitalizeSpaceFree(t: string)
    requires SpaceFree(t)
    ensures Capitalize(t) == CapitalizeWords(t)
  {
    forall j | 0 <= j < |t|
      ensures t[j] != ' '
    {
      assert t[j] in t;
    }
  }

  lemma CapitalizeWordsAround(a: string, b: string)
    ensures CapitalizeWords(a + " " + b) == CapitalizeWords(a) + " " + CapitalizeWords(b)
  {
    var s := a + " " + b;
    var l := CapitalizeWords(s);
    var r := CapitalizeWords(a) + " " + CapitalizeWords(b);
    assert |l| == |r|;
    forall i | 0 <= i < |s|
      ensures l[i] == r[i]
    {
      if i > |a| + 1 {
        assert s[i - 1] == b[i - |a| - 2];
      }
    }
  }

  lemma {:induction false} TokenWiseCapitalize(s: string)
    ensures TokenWise(Capitalize, s) == CapitalizeWords(s)
    decreases |s|
  {
    match IndexOf(s, ' ')
    case None =>
      assert Split(s) == [s];
      CapitalizeSpaceFree(s);
    case Some(k) =>
      TokenWiseStep(Capitalize, s, k);
      TokenWiseCapitalize(s[k + 1..]);
      CapitalizeSpaceFree(s[..k]);
      CapitalizeWordsAround(s[..k], s[k + 1..]);
      assert s == s[..k] + " " + s[k + 1..];
  }

  /** `validateUpperCase` upper-cases exactly the first character of every
      space-delimited token: same length, same spaces, nothing else changed. */
  lemma UpperCaseCapitalizesWords(s: string)
    ensures ValidateUpperCase(s) == CapitalizeWords(s)
    ensures |ValidateUpperCase(s)| == |s|
    ensures forall i :: 0 <= i < |s| ==> (ValidateUpperCase(s)[i] == ' ' <==> s[i] == ' ')
  {
    if s != "" {
      TokenWiseCapitalize(s);
    }
    forall i | 0 <= i < |s|
      ensures ValidateUpperCase(s)[i] == ' ' <==> s[i] == ' '
    {
      CaseMappingFacts(s[i]);
    }
  }

  lemma UpperCaseIdempotent(s: string)
    ensures ValidateUpperCase(ValidateUpperCase(s)) == ValidateUpperCase(s)
  {
    var r := ValidateUpperCase(s);
    UpperCaseCapitalizesWords(s);
    UpperCaseCapitalizesWords(r);
    forall i | 0 <= i < |s|
      ensures CapitalizeWords(r)[i] == r[i]
    {
      CaseMappingFacts(s[i]);
      if i > 0 {
        CaseMappingFacts(s[i - 1]);
      }
    }
  }

  /** Capitalising words does not change a string's lower-case form, so a
      case-insensitive comparison sees the stored name as the submitted one. */
  lemma UpperCaseKeepsLowerForm(s: string)
    ensures LowerAll(ValidateUpperCase(s)) == LowerAll(s)
  {
    UpperCaseCapitalizesWords(s);
    forall i | 0 <= i < |s|
      ensures LowerAll(ValidateUpperCase(s))[i] == LowerAll(s)[i]
    {
      CaseMappingFacts(s[i]);
    }
  }

  // ---------------------------------------------------------------------------
  // validateMasked

  function Stars(n: nat): (r: string)
    ensures |r| == n && forall i :: 0 <= i < n ==> r[i] == '*'
  {
    seq(n, _ => '*')
  }

  /** Masking of one token: keep `start` leading and `end` trailing characters, or hide all of a short token. */
  function MaskToken(t: string, start: nat, end: nat): (r: string)
    ensures |r| == |t|
    ensures start + end >= |t| ==> forall i :: 0 <= i < |r| ==> r[i] == '*'
    ensures start + end < |t| ==>
      && r[..start] == t[..start]
      && r[|t| - end..] == t[|t| - end..]
      && forall i :: start <= i < |t| - end ==> r[i] == '*'
    ensures forall i :: 0 <= i < |r| ==> r[i] == '*' || r[i] == t[i]
  {
    if start + end >= |t| then Stars(|t|)
    else t[..start] + Stars(|t| - start - end) + t[|t| - end..]
  }

  function MaskWith(start: nat, end: nat): string -> string
  {
    t => MaskToken(t, start, end)
  }

  function ValidateMasked(s: string, start: nat, end: nat): string
  {
    TokenWise(MaskWith(start, end), s)
  }

  /** Masking keeps the string's length and the exact positions of its spaces. */
  lemma MaskedShape(s: string, start: nat, end: nat)
    ensures |ValidateMasked(s, start, end)| == |s|
    ensures forall i :: 0 <= i < |s| ==> (ValidateMasked(s, start, end)[i] == ' ' <==> s[i] == ' ')
  {
    var f := MaskWith(start, end);
    forall t | SpaceFree(t)
      ensures |f(t)| == |t| && SpaceFree(f(t))
    {
      var m := f(t);
      forall i | 0 <= i < |m|
        ensures m[i] != ' '
      {
        assert t[i] in t;
      }
    }
    TokenWiseShape(f, s);
  }

  /** Each space-delimited token of the result is the masked token of the input. */
  lemma MaskedTokens(s: string, start: nat, end: nat)
    ensures |Split(ValidateMasked(s, start, end))| == |Split(s)|
    ensures forall i :: 0 <= i < |Split(s)| ==>
      Split(ValidateMasked(s, start, end))[i] == MaskToken(Split(s)[i], start, end)
  {
    var ts := Split(s);
    var f := MaskWith(start, end);
    var ms := seq(|ts|, i requires 0 <= i < |ts| => f(ts[i]));
    forall i | 0 <= i < |ms|
      ensures SpaceFree(ms[i])
    {
      forall j | 0 <= j < |ms[i]|
        ensures ms[i][j] != ' '
      {
        assert ts[i][j] in ts[i];
      }
    }
    SplitJoin(ms);
  }

  // ---------------------------------------------------------------------------
  // validateSlug

  function TrimStart(s: string): (r: string)
    ensures |r| <= |s| && r == s[|s| - |r|..]
    ensures r == [] || !IsJsWhitespace(r[0])
  {
    if s != [] && IsJsWhitespace(s[0]) then TrimStart(s[1..]) else s
  }

  function TrimEnd(s: string): (r: string)
    ensures |r| <= |s| && r == s[..|r|]
    ensures r == [] || !IsJsWhitespace(r[|r| - 1])
  {
    if s != [] && IsJsWhitespace(s[|s| - 1]) then TrimEnd(s[..|s| - 1]) else s
  }

  /** `String.prototype.trim`. */
  function Trim(s: string): string { TrimEnd(TrimStart(s)) }

  /** `replace(/&/g, 'and')`. */
  function ExpandAmpersands(s: string): string
  {
    if s == [] then [] else (if s[0] == '&' then "and" else [s[0]]) + ExpandAmpersands(s[1..])
  }

  /** Drops the leading run of characters outside `\w`. */
  function DropNonWord(s: string): (r: string)
    ensures |r| <= |s| && r == s[|s| - |r|..]
    ensures r == [] || IsWordChar(r[0])
  {
    if s != [] && !IsWordChar(s[0]) then DropNonWord(s[1..]) else s
  }

  predicate DashedWord(r: string) {
    && (forall i :: 0 <= i < |r| ==> IsWordChar(r[i]) || r[i] == '-')
    && (forall i :: 0 <= i < |r| - 1 ==> !(r[i] == '-' && r[i + 1] == '-'))
  }

  /** Putting a word character, or a dash before a non-dash, in front of a dashed word keeps it one. */
  lemma DashedCons(c: char, tail: string)
    requires DashedWord(tail) && (IsWordChar(c) || c == '-')
    requires c == '-' ==> tail == [] || tail[0] != '-'
    ensures DashedWord([c] + tail)
  {
    var r := [c] + tail;
    assert forall i :: 0 < i < |r| ==> r[i] == tail[i - 1];
  }

  /** `replace(/[\s\W-]+/g, '-')`: every maximal run of non-word characters becomes one dash. */
  function CollapseNonWord(s: string): (r: string)
    ensures DashedWord(r)
    ensures r != [] && r[0] == '-' ==> s != [] && !IsWordChar(s[0])
    ensures forall i :: 0 <= i < |r| && r[i] != '-' ==> r[i] in s
    decreases |s|
  {
    if s == [] then []
    else if IsWordChar(s[0]) then
      var tail := CollapseNonWord(s[1..]);
      DashedCons(s[0], tail);
      assert forall i :: 0 < i < |[s[0]] + tail| ==> ([s[0]] + tail)[i] == tail[i - 1];
      [s[0]] + tail
    else
      var rest := DropNonWord(s[1..]);
      var tail := CollapseNonWord(rest);
      DashedCons('-', tail);
      assert forall i :: 0 < i < |"-" + tail| ==> ("-" + tail)[i] == tail[i - 1];
      assert forall c :: c in rest ==> c in s;
      "-" + tail
  }

  function StripLeadingDashes(s: string): (r: string)
    ensures |r| <= |s| && r == s[|s| - |r|..]
    ensures r == [] || r[0] != '-'
  {
    if s != [] && s[0] == '-' then StripLeadingDashes(s[1..]) else s
  }

  function StripTrailingDashes(s: string): (r: string)
    ensures |r| <= |s| && r == s[..|r|]
    ensures r == [] || r[|r| - 1] != '-'
  {
    if s != [] && s[|s| - 1] == '-' then StripTrailingDashes(s[..|s| - 1]) else s
  }

  function ValidateSlug(s: string): string
  {
    StripTrailingDashes(StripLeadingDashes(CollapseNonWord(ExpandAmpersands(Trim(LowerAll(s))))))
  }

  predicate IsSlugChar(c: char) { IsLowerLetter(c) || IsDigit(c) || c == '_' }

  /** A well-formed slug: lower-case word characters in runs separated by single dashes. */
  predicate IsSlug(r: string) {
    && (forall i :: 0 <= i < |r| ==> IsSlugChar(r[i]) || r[i] == '-')
    && (forall i :: 0 <= i < |r| - 1 ==> !(r[i] == '-' && r[i + 1] == '-'))
    && (r != [] ==> r[0] != '-' && r[|r| - 1] != '-')
  }

  predicate NoUpper(s: string) { forall i :: 0 <= i < |s| ==> !IsUpperLetter(s[i]) }

  lemma {:induction false} ExpandAmpersandsNoUpper(s: string)
    requires NoUpper(s)
    ensures NoUpper(ExpandAmpersands(s))
  {
    if s != [] {
      ExpandAmpersandsNoUpper(s[1..]);
    }
  }

  lemma NoUpperSlice(s: string, i: nat, j: nat)
    requires NoUpper(s) && i <= j <= |s|
    ensures NoUpper(s[i..j])
  {
    assert forall k :: 0 <= k < j - i ==> s[i..j][k] == s[i + k];
  }

  lemma DashedWordSlice(s: string, i: nat, j: nat)
    requires DashedWord(s) && i <= j <= |s|
    ensures DashedWord(s[i..j])
  {
    assert forall k :: 0 <= k < j - i ==> s[i..j][k] == s[i + k];
  }

  lemma TrimmedLowerHasNoUpper(s: string)
    ensures NoUpper(Trim(LowerAll(s)))
  {
    var lowered := LowerAll(s);
    var t := TrimStart(lowered);
    NoUpperSlice(lowered, |lowered| - |t|, |lowered|);
    NoUpperSlice(t, 0, |TrimEnd(t)|);
  }

  lemma CollapseHasNoUpper(x: string)
    requires NoUpper(x)
    ensures NoUpper(CollapseNonWord(x))
  {
    var c := CollapseNonWord(x);
    forall i | 0 <= i < |c|
      ensures !IsUpperLetter(c[i])
    {
      if c[i] != '-' {
        assert c[i] in x;
      }
    }
  }

  lemma DashedLowerChars(x: string)
    requires DashedWord(x) && NoUpper(x)
    ensures forall i :: 0 <= i < |x| ==> IsSlugChar(x[i]) || x[i] == '-'
  {
    forall i | 0 <= i < |x|
      ensures IsSlugChar(x[i]) || x[i] == '-'
    {
      assert IsWordChar(x[i]) || x[i] == '-';
      assert !IsUpperLetter(x[i]);
    }
  }

  lemma StripDashesGivesSlug(c: string)
    requires DashedWord(c) && NoUpper(c)
    ensures IsSlug(StripTrailingDashes(StripLeadingDashes(c)))
  {
    var lead := StripLeadingDashes(c);
    NoUpperSlice(c, |c| - |lead|, |c|);
    DashedWordSlice(c, |c| - |lead|, |c|);
    var r := StripTrailingDashes(lead);
    NoUpperSlice(lead, 0, |r|);
    DashedWordSlice(lead, 0, |r|);
    DashedLowerChars(r);
    if r != [] {
      assert r[0] == lead[0];
    }
  }

  lemma SlugIsWellFormed(s: string)
    ensures IsSlug(ValidateSlug(s))
  {
    var trimmed := Trim(LowerAll(s));
    TrimmedLowerHasNoUpper(s);
    ExpandAmpersandsNoUpper(trimmed);
    var expanded := ExpandAmpersands(trimmed);
    CollapseHasNoUpper(expanded);
    StripDashesGivesSlug(CollapseNonWord(expanded));
  }

  lemma EndsNotSpace(x: string)
    requires IsSlug(x) && x != []
    ensures !IsJsWhitespace(x[0]) && !IsJsWhitespace(x[|x| - 1])
  {
    assert IsSlugChar(x[0]) && IsSlugChar(x[|x| - 1]);
  }

  lemma TrimKeepsSlug(x: string)
    requires IsSlug(x)
    ensures Trim(x) == x
  {
    if x != [] {
      EndsNotSpace(x);
      assert TrimStart(x) == x;
      assert TrimEnd(x) == x;
    }
  }

  lemma {:induction false} ExpandKeepsSlugChars(x: string)
    requires forall i :: 0 <= i < |x| ==> x[i] != '&'
    ensures ExpandAmpersands(x) == x
  {
    if x != [] {
      ExpandKeepsSlugChars(x[1..]);
      assert x == [x[0]] + x[1..];
    }
  }

  lemma {:induction false} CollapseKeepsDashedWord(x: string)
    requires DashedWord(x)
    ensures CollapseNonWord(x) == x
    decreases |x|
  {
    if x != [] {
      CollapseKeepsDashedWord(x[1..]);
      assert x == [x[0]] + x[1..];
    }
  }

  lemma SlugLowerFixed(x: string)
    requires IsSlug(x)
    ensures LowerAll(x) == x
  {
    assert forall i :: 0 <= i < |x| ==> Lower(x[i]) == x[i];
  }

  lemma StripDashesKeepsSlug(x: string)
    requires IsSlug(x)
    ensures StripTrailingDashes(StripLeadingDashes(x)) == x
  {
    if x != [] {
      assert StripLeadingDashes(x) == x;
      assert StripTrailingDashes(x) == x;
    }
  }

  lemma SlugHasNoAmpersand(x: string)
    requires IsSlug(x)
    ensures forall i :: 0 <= i < |x| ==> x[i] != '&'
  {
  }

  /** A well-formed slug is a fixed point of every stage of `validateSlug`. */
  lemma SlugIsFixedPoint(x: string)
    requires IsSlug(x)
    ensures ValidateSlug(x) == x
  {
    SlugLowerFixed(x);
    TrimKeepsSlug(x);
    var trimmed := Trim(LowerAll(x));
    assert trimmed == x;
    SlugHasNoAmpersand(x);
    ExpandKeepsSlugChars(x);
    var expanded := ExpandAmpersands(trimmed);
    assert expanded == x;
    CollapseKeepsDashedWord(x);
    var collapsed := CollapseNonWord(expanded);
    assert collapsed == x;
    StripDashesKeepsSlug(x);
  }

  /** Slugging a slug changes nothing, so `validateSlug` is idempotent. */
  lemma SlugIdempotent(s: string)
    ensures ValidateSlug(ValidateSlug(s)) == ValidateSlug(s)
  {
    SlugIsWellFormed(s);
    SlugIsFixedPoint(ValidateSlug(s));
  }

  // ---------------------------------------------------------------------------
  // validateReplaceMessage

  predicate OccursAt(s: string, pat: string, k: nat) {
    k + |pat| <= |s| && s[k..k + |pat|] == pat
  }

  /** `s.indexOf(pat, from)`: the first occurrence of `pat` at or after `from`. */
  function FindFrom(s: string, pat: string, from: nat): (r: Option<nat>)
    ensures r.Some? ==>
      && from <= r.value
      && OccursAt(s, pat, r.value)
      && forall j: nat :: from <= j < r.value ==> !OccursAt(s, pat, j)
    ensures r.None? ==> forall j: nat :: from <= j ==> !OccursAt(s, pat, j)
    decreases |s| - from
  {
    if from + |pat| > |s| then None
    else if s[from..from + |pat|] == pat then Some(from)
    else FindFrom(s, pat, from + 1)
  }

  /** The replacement-pattern expansion of `String.prototype.replace` for a
      string pattern: `$$`, `$&`, `` $` `` and `$'` are special, every other
      character (a `$n` included, since there are no capture groups) is literal. */
  function Substitute(rep: string, matched: string, before: string, after: string): string
  {
    if rep == [] then []
    else if rep[0] == '$' && |rep| >= 2 && rep[1] == '$' then "$" + Substitute(rep[2..], matched, before, after)
    else if rep[0] == '$' && |rep| >= 2 && rep[1] == '&' then matched + Substitute(rep[2..], matched, before, after)
    else if rep[0] == '$' && |rep| >= 2 && rep[1] == '`' then before + Substitute(rep[2..], matched, before, after)
    else if rep[0] == '$' && |rep| >= 2 && rep[1] == '\'' then after + Substitute(rep[2..], matched, before, after)
    else [rep[0]] + Substitute(rep[1..], matched, before, after)
  }

  lemma {:induction false} SubstituteLiteral(rep: string, matched: string, before: string, after: string)
    requires '$' !in rep
    ensures Substitute(rep, matched, before, after) == rep
  {
    if rep != [] {
      assert rep[1..] == rep[1..];
      assert '$' !in rep[1..] by { assert forall c :: c in rep[1..] ==> c in rep; }
      SubstituteLiteral(rep[1..], matched, before, after);
      assert rep == [rep[0]] + rep[1..];
    }
  }

  /** `s.replace(pat, rep)` with a string pattern: only the first occurrence is replaced. */
  function ReplaceFirst(s: string, pat: string, rep: string): (r: string)
    ensures FindFrom(s, pat, 0).None? ==> r == s
  {
    match FindFrom(s, pat, 0)
    case None => s
    case Some(k) => s[..k] + Substitute(rep, pat, s[..k], s[k + |pat|..]) + s[k + |pat|..]
  }

  /** The placeholder for the `i`-th variable (counting from zero): `{{i+1}}`. */
  function Placeholder(i: nat): string { "{{" + Decimal(i + 1) + "}}" }

  function ReplaceFrom(s: string, variables: seq<string>, i: nat): string
    requires i <= |variables|
    decreases |variables| - i
  {
    if i == |variables| then s else ReplaceFrom(ReplaceFirst(s, Placeholder(i), variables[i]), variables, i + 1)
  }

  function ValidateReplaceMessage(s: string, variables: seq<string>): string
  {
    if s == "" then "" else ReplaceFrom(s, variables, 0)
  }

  lemma {:induction false} ReplaceFromWithoutBraces(s: string, variables: seq<string>, i: nat)
    requires i <= |variables|
    requires forall k: nat :: !OccursAt(s, "{{", k)
    ensures ReplaceFrom(s, variables, i) == s
    decreases |variables| - i
  {
    if i < |variables| {
      var pat := Placeholder(i);
      assert pat[..2] == "{{";
      forall j: nat
        ensures !OccursAt(s, pat, j)
      {
        assert !OccursAt(s, "{{", j);
        if j + |pat| <= |s| {
          assert s[j..j + |pat|][..2] == s[j..j + 2];
        }
      }
      ReplaceFromWithoutBraces(s, variables, i + 1);
    }
  }

  /** A message without any `{{` is returned as it is, whatever the variables. */
  lemma MessageWithoutPlaceholders(s: string, variables: seq<string>)
    requires forall k: nat :: !OccursAt(s, "{{", k)
    ensures ValidateReplaceMessage(s, variables) == s
  {
    if s != "" {
      ReplaceFromWithoutBraces(s, variables, 0);
    }
  }

  /** With one variable free of `$`, the first `{{1}}` after a brace-free prefix is replaced by it. */
  lemma SinglePlaceholderReplaced(a: string, b: string, v: string)
    requires '{' !in a && '$' !in v
    ensures ValidateReplaceMessage(a + "{{1}}" + b, [v]) == a + v + b
  {
    var s := a + "{{1}}" + b;
    var pat := Placeholder(0);
    assert pat == "{{1}}";
    assert OccursAt(s, pat, |a|) by { assert s[|a|..|a| + 5] == "{{1}}"; }
    forall j: nat | j < |a|
      ensures !OccursAt(s, pat, j)
    {
      assert a[j] in a;
      if j + 5 <= |s| {
        assert s[j..j + 5][0] == s[j] == a[j];
      }
    }
    var found := FindFrom(s, pat, 0);
    assert found == Some(|a|);
    assert s[..|a|] == a;
    assert s[|a| + 5..] == b;
    SubstituteLiteral(v, pat, a, b);
    var replaced := ReplaceFirst(s, pat, v);
    assert replaced == a + v + b;
    assert ValidateReplaceMessage(s, [v]) == ReplaceFrom(replaced, [v], 1);
  }

  /** A variable holding `$&` re-inserts the matched placeholder instead of itself. */
  lemma DollarAmpersandReinsertsPlaceholder()
    ensures ValidateReplaceMessage("{{1}}", ["$&"]) == "{{1}}"
  {
    var pat := Placeholder(0);
    assert pat == "{{1}}";
    assert FindFrom("{{1}}", pat, 0) == Some(0);
  }

  /** The evidently intended substitution: the variable is inserted literally,
      `$` and all (a replacer function, `() => v`, does this). */
  function ReplaceFirstLiteral(s: string, pat: string, rep: string): (r: string)
    ensures FindFrom(s, pat, 0).None? ==> r == s
    ensures FindFrom(s, pat, 0).Some? ==>
      var k := FindFrom(s, pat, 0).value;
      |r| == |s| - |pat| + |rep| && r[..k] == s[..k] && r[k..k + |rep|] == rep && r[k + |rep|..] == s[k + |pat|..]
  {
    match FindFrom(s, pat, 0)
    case None => s
    case Some(k) => s[..k] + rep + s[k + |pat|..]
  }

  function ReplaceLiteralFrom(s: string, variables: seq<string>, i: nat): string
    requires i <= |variables|
    decreases |variables| - i
  {
    if i == |variables| then s else ReplaceLiteralFrom(ReplaceFirstLiteral(s, Placeholder(i), variables[i]), variables, i + 1)
  }

  function ValidateReplaceMessageLiteral(s: string, variables: seq<string>): string
  {
    if s == "" then "" else ReplaceLiteralFrom(s, variables, 0)
  }

  /** Without `$` in the variables the corrected substitution agrees with the original. */
  lemma {:induction false} LiteralAgreesWithoutDollar(s: string, variables: seq<string>, i: nat)
    requires i <= |variables|
    requires forall j :: i <= j < |variables| ==> '$' !in variables[j]
    ensures ReplaceLiteralFrom(s, variables, i) == ReplaceFrom(s, variables, i)
    decreases |variables| - i
  {
    if i < |variables| {
      ReplaceFirstLiteralAgrees(s, Placeholder(i), variables[i]);
      LiteralAgreesWithoutDollar(ReplaceFirst(s, Placeholder(i), variables[i]), variables, i + 1);
    }
  }

  lemma ReplaceFirstLiteralAgrees(s: string, pat: string, rep: string)
    requires '$' !in rep
    ensures ReplaceFirstLiteral(s, pat, rep) == ReplaceFirst(s, pat, rep)
  {
    match FindFrom(s, pat, 0)
    case None =>
    case Some(k) =>
      var before, after := s[..k], s[k + |pat|..];
      SubstituteLiteral(rep, pat, before, after);
      assert ReplaceFirst(s, pat, rep) == before + Substitute(rep, pat, before, after) + after;
      assert ReplaceFirstLiteral(s, pat, rep) == before + rep + after;
  }

  /** With the corrected substitution, any single variable, `$` included, replaces the
      first `{{1}}` after a brace-free prefix. */
  lemma SinglePlaceholderReplacedLiterally(a: string, b: string, v: string)
    requires '{' !in a
    ensures ValidateReplaceMessageLiteral(a + "{{1}}" + b, [v]) == a + v + b
  {
    var s := a + "{{1}}" + b;
    var pat := Placeholder(0);
    assert pat == "{{1}}";
    assert OccursAt(s, pat, |a|) by { assert s[|a|..|a| + 5] == "{{1}}"; }
    forall j: nat | j < |a|
      ensures !OccursAt(s, pat, j)
    {
      assert a[j] in a;
      if j + 5 <= |s| {
        assert s[j..j + 5][0] == s[j] == a[j];
      }
    }
    assert FindFrom(s, pat, 0) == Some(|a|);
    assert s[..|a|] == a;
    assert s[|a| + 5..] == b;
    assert ValidateReplaceMessageLiteral(s, [v]) == ReplaceLiteralFrom(ReplaceFirstLiteral(s, pat, v), [v], 1);
  }

  /** The input that exposes the original: `$&` now arrives as written. */
  lemma DollarAmpersandInsertedLiterally()
    ensures ValidateReplaceMessageLiteral("{{1}}", ["$&"]) == "$&"
  {
    SinglePlaceholderReplacedLiterally("", "", "$&");
    assert "" + "{{1}}" + "" == "{{1}}";
    assert "" + "$&" + "" == "$&";
  }

  // ---------------------------------------------------------------------------
  // validateReplacePhone

  /** The two target formats `'08'` (local) and `'62'` (international). */
  datatype PhoneFormat = Local08 | Intl62

  function ValidateReplacePhone(s: string, format: PhoneFormat): string
  {
    if s == "" then ""
    else
      var prefix := if |s| >= 2 then s[..2] else s;
      var rest := if |s| >= 2 then s[2..] else "";
      match format
      case Local08 => if prefix == "08" then s else "0" + rest
      case Intl62 => if prefix == "62" then s else "628" + rest
  }

  predicate StartsWith(s: string, p: string) { |p| <= |s| && s[..|p|] == p }

  /** A non-empty number converted to `'62'` always starts with `62`, and converting again changes nothing. */
  lemma PhoneIntlIsIdempotent(s: string)
    requires s != ""
    ensures StartsWith(ValidateReplacePhone(s, Intl62), "62")
    ensures ValidateReplacePhone(ValidateReplacePhone(s, Intl62), Intl62) == ValidateReplacePhone(s, Intl62)
  {
    var r := ValidateReplacePhone(s, Intl62);
    if !(|s| >= 2 && s[..2] == "62") {
      assert r[..2] == "62";
    }
  }

  /** `08…` and `628…` numbers convert into each other and back unchanged. */
  lemma PhoneFormatsRoundTrip(s: string)
    ensures StartsWith(s, "628") ==> ValidateReplacePhone(ValidateReplacePhone(s, Local08), Intl62) == s
    ensures StartsWith(s, "08") ==> ValidateReplacePhone(ValidateReplacePhone(s, Intl62), Local08) == s
  {
    if StartsWith(s, "628") {
      var l := ValidateReplacePhone(s, Local08);
      assert s[..2][1] == '2';
      assert l == "0" + s[2..];
      assert l[..2] == "08";
      assert "628" + l[2..] == s;
    }
    if StartsWith(s, "08") {
      var g := ValidateReplacePhone(s, Intl62);
      assert s[..2][1] == '8';
      assert g == "628" + s[2..];
      assert g[..2] == "62";
      assert "0" + g[2..] == s;
    }
  }

  /** Conversion to `'08'` replaces the first two characters of a non-`08` number
      (the whole of a one-character number) by a single `0` and keeps the rest. */
  lemma PhoneLocalShape(s: string)
    requires s != ""
    ensures StartsWith(s, "08") ==> ValidateReplacePhone(s, Local08) == s
    ensures !StartsWith(s, "08") ==>
      && ValidateReplacePhone(s, Local08) == "0" + (if |s| >= 2 then s[2..] else "")
      && |ValidateReplacePhone(s, Local08)| == if |s| >= 2 then |s| - 1 else 1
  {
  }

  /** Conversion to `'62'` replaces the first two characters of a non-`62` number
      (the whole of a one-character number) by `628` and keeps the rest. */
  lemma PhoneIntlShape(s: string)
    requires s != ""
    ensures StartsWith(s, "62") ==> ValidateReplacePhone(s, Intl62) == s
    ensures !StartsWith(s, "62") ==>
      && ValidateReplacePhone(s, Intl62) == "628" + (if |s| >= 2 then s[2..] else "")
      && |ValidateReplacePhone(s, Intl62)| == if |s| >= 2 then |s| + 1 else 3
  {
  }

  // ---------------------------------------------------------------------------
  // validateRandomChar

  datatype CharSet = Alpha | Numeric | Alphanumeric

  const Letters := "qwertyuiopasdfghjklzxcvbnm"
  const Digits := "1234567890"

  /** The source's three alphabets; the alphanumeric one is the digits followed by the letters. */
  function Alphabet(kind: CharSet): (a: string)
    ensures |a| > 0
  {
    match kind
    case Alpha => Letters
    case Numeric => Digits
    case Alphanumeric => Digits + Letters
  }

  predicate InCharSet(kind: CharSet, c: char) {
    match kind
    case Alpha => IsUpperLetter(c)
    case Numeric => IsDigit(c)
    case Alphanumeric => IsUpperLetter(c) || IsDigit(c)
  }

  lemma LettersAreLower(c: char)
    requires c in Letters
    ensures IsLowerLetter(c)
  {
  }

  lemma DigitsAreDigits(c: char)
    requires c in Digits
    ensures IsDigit(c)
  {
  }

  /** Every character of an alphabet, upper-cased, belongs to its class. */
  lemma AlphabetInCharSet(kind: CharSet, k: nat)
    requires k < |Alphabet(kind)|
    ensures InCharSet(kind, Upper(Alphabet(kind)[k]))
  {
    var a := Alphabet(kind);
    var c := a[k];
    assert c in a;
    match kind
    case Alpha =>
      LettersAreLower(c);
    case Numeric =>
      DigitsAreDigits(c);
    case Alphanumeric =>
      if k < |Digits| {
        assert c == Digits[k];
        DigitsAreDigits(c);
      } else {
        assert c == Letters[k - |Digits|];
        LettersAreLower(c);
      }
  }

  /** `validateRandomChar(n, kind)`: `n` characters drawn from the alphabet and
      upper-cased. Each draw of `Math.random` is a nondeterministic choice. */
  method ValidateRandomChar(n: int, kind: CharSet) returns (r: string)
    ensures |r| == if n > 0 then n else 0
    ensures forall i :: 0 <= i < |r| ==> InCharSet(kind, r[i])
    ensures forall i :: 0 <= i < |r| ==> r[i] in UpperAll(Alphabet(kind))
  {
    r := "";
    if n == 0 {
      return r;
    }
    var characters := Alphabet(kind);
    var index := 0;
    while index < n
      invariant 0 <= index && |r| == index
      invariant index <= if n > 0 then n else 0
      invariant forall i :: 0 <= i < |r| ==> InCharSet(kind, r[i])
      invariant forall i :: 0 <= i < |r| ==> r[i] in UpperAll(characters)
    {
      var random :| 0 <= random < |characters|;
      var c := Upper(characters[random]);
      AlphabetInCharSet(kind, random);
      assert c == UpperAll(characters)[random];
      r := r + [c];
      index := index + 1;
    }
  }
}
