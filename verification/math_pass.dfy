/**
 * The heuristic math classifier of `omml_pass.py`: `MathPass._looks_like_math`
 * counts four signals over a block's text, and `MathPass.tag_blocks` adds the
 * verdict to every block of an OCR result.
 *
 * The three regular expressions of `MathRE` are written out as predicates over
 * character positions; `\w`, `\s` and `isalnum` use the classes of `Text`,
 * and `re.IGNORECASE` is ASCII case folding.
 */
module MathPass {
  import Text
  import opened Wrappers
  import opened OcrBlocks
  import opened DocumentOcr

  /** `MathPassConfig`: how many signals make a text math-like. */
  datatype MathPassConfig = MathPassConfig(minMathSignals: int)

  /** The default configuration: one signal suffices. */
  const DefaultConfig := MathPassConfig(1)

  // ---------------------------------------------------------------------------
  // The three patterns of MathRE
  // ---------------------------------------------------------------------------

  /** The character class of `MATH_CHARS_RE`. */
  predicate IsMathChar(c: char) {
    || c == '=' || c == '+' || c == '-' || c == '*' || c == '/' || c == '^' || c == '_'
    || c == '\U{2211}'  // ∑
    || c == '\U{222B}'  // ∫
    || c == '\U{221A}'  // √
    || c == '\U{2248}'  // ≈
    || c == '\U{2260}'  // ≠
    || c == '\U{2264}'  // ≤
    || c == '\U{2265}'  // ≥
    || c == '\U{221E}'  // ∞
    || c == '\U{03C0}'  // π
    || c == '\U{03B8}'  // θ
    || c == '\U{03BB}'  // λ
    || c == '\U{03BC}'  // μ
    || c == '\U{03A9}'  // Ω
    || c == '\U{03B1}'  // α
    || c == '\U{03B2}'  // β
    || c == '\U{03B3}'  // γ
    || c == '\U{0394}'  // Δ
    || c == '\U{2192}'  // →
    || c == '\U{2190}'  // ←
    || c == '\U{2194}'  // ↔
  }

  /** `MATH_CHARS_RE.search(text)` succeeds. */
  predicate HasMathChar(s: string) {
    exists i :: 0 <= i < |s| && IsMathChar(s[i])
  }

  /** The alternatives of `MATH_WORDS_RE`, in lower case. */
  const MathWords: seq<string> := ["sin", "cos", "tan", "log", "ln", "lim", "dx", "dy", "dz"]

  /**
   * `\b` + `w` + `\b` matches at position `i`, ignoring case: the word is
   * neither preceded nor followed by a word character.
   */
  predicate WordAt(s: string, i: nat, w: string) {
    && i + |w| <= |s|
    && Text.Lower(s[i..i + |w|]) == w
    && (i == 0 || !Text.IsWordChar(s[i - 1]))
    && (i + |w| == |s| || !Text.IsWordChar(s[i + |w|]))
  }

  /** `MATH_WORDS_RE.search(text)` succeeds. */
  predicate HasMathWord(s: string) {
    exists i, k :: 0 <= i < |s| && 0 <= k < |MathWords| && WordAt(s, i, MathWords[k])
  }

  /**
   * `EQUATIONISH_RE` matches at `i`: a word character at `i`, whitespace up
   * to `j`, `=` at `j`, whitespace up to `k`, a word character or `(` at `k`.
   */
  predicate EquationAt(s: string, i: nat, j: nat, k: nat) {
    && i < j < k < |s|
    && Text.IsWordChar(s[i])
    && Text.AllSpace(s[i + 1..j])
    && s[j] == '='
    && Text.AllSpace(s[j + 1..k])
    && (Text.IsWordChar(s[k]) || s[k] == '(')
  }

  /** `EQUATIONISH_RE.search(text)` succeeds. */
  predicate HasEquation(s: string) {
    exists i, j, k :: 0 <= i < j < k < |s| && EquationAt(s, i, j, k)
  }

  // ---------------------------------------------------------------------------
  // Symbol density
  // ---------------------------------------------------------------------------

  /** A character that is neither alphanumeric nor whitespace. */
  predicate IsSymbol(c: char) {
    !Text.IsAlnum(c) && !Text.IsSpace(c)
  }

  /** `sum(1 for c in text if not c.isalnum() and not c.isspace())`. */
  function SymbolCount(s: string): (n: nat)
    ensures n <= |s|
    ensures n == 0 <==> forall i :: 0 <= i < |s| ==> !IsSymbol(s[i])
  {
    if s == [] then 0
    else
      var rest := SymbolCount(s[1..]);
      assert forall i :: 1 <= i < |s| ==> s[i] == s[1..][i - 1];
      (if IsSymbol(s[0]) then 1 else 0) + rest
  }

  /** The count of a concatenation is the sum of the counts of its parts. */
  lemma {:induction false} SymbolCountConcat(a: string, b: string)
    ensures SymbolCount(a + b) == SymbolCount(a) + SymbolCount(b)
  {
    if a == [] {
      assert a + b == b;
    } else {
      assert (a + b)[0] == a[0];
      assert (a + b)[1..] == a[1..] + b;
      SymbolCountConcat(a[1..], b);
    }
  }

  /** A single character counts one exactly when it is a symbol. */
  lemma SymbolCountChar(c: char)
    ensures SymbolCount([c]) == if IsSymbol(c) then 1 else 0
  {
    assert [c][1..] == [];
  }

  /** A run of lower-case ASCII letters holds no symbol. */
  lemma LowerLettersNoSymbols(s: string)
    requires forall i :: 0 <= i < |s| ==> Text.IsAsciiLower(s[i])
    ensures SymbolCount(s) == 0
  {
    forall i | 0 <= i < |s|
      ensures !IsSymbol(s[i])
    {
      assert Text.IsAlnum(s[i]);
    }
  }

  lemma PlusPlusCount()
    ensures SymbolCount("++") == 2
  {
    assert IsSymbol('+');
    SymbolCountChar('+');
    SymbolCountConcat("+", "+");
    assert "++" == "+" + "+";
  }

  /**
   * Two `+` followed by ten lower-case letters (`++abcdefghij`, say) count
   * two symbols in twelve characters, above the 15% density.
   */
  lemma DenseExample(letters: string)
    requires |letters| == 10
    requires forall i :: 0 <= i < |letters| ==> Text.IsAsciiLower(letters[i])
    ensures SymbolCount("++" + letters) == 2
    ensures DenseInSymbols("++" + letters)
  {
    LowerLettersNoSymbols(letters);
    PlusPlusCount();
    SymbolCountConcat("++", letters);
  }

  /** The density test, in integers: `sym / len > 0.15` is `100 * sym > 15 * len`. */
  predicate DenseInSymbols(s: string) {
    |s| > 0 && 100 * SymbolCount(s) > 15 * |s|
  }

  /** The integer test agrees with the quotient the source computes. */
  lemma DensityAsQuotient(s: string)
    ensures DenseInSymbols(s) <==>
            |s| > 0 && (SymbolCount(s) as real) / (|s| as real) > 0.15
  {
    if |s| > 0 {
      var n, l := SymbolCount(s), |s|;
      QuotientAbove(n as real, l as real);
      assert (100 * n) as real == 100.0 * (n as real);
      assert (15 * l) as real == 15.0 * (l as real);
    }
  }

  lemma QuotientAbove(n: real, l: real)
    requires l > 0.0
    ensures n / l > 0.15 <==> 100.0 * n > 15.0 * l
  {
    var q := n / l;
    assert n == q * l;
    if q > 0.15 {
      assert (q - 0.15) * l > 0.0;
    } else {
      assert (0.15 - q) * l >= 0.0;
    }
  }

  // ---------------------------------------------------------------------------
  // _looks_like_math
  // ---------------------------------------------------------------------------

  function Indicator(b: bool): nat {
    if b then 1 else 0
  }

  /** The number of signals `_looks_like_math` counts: between 0 and 4. */
  function Signals(s: string): (n: nat)
    ensures n <= 4
    ensures n == 0 <==> !HasMathChar(s) && !HasMathWord(s) && !HasEquation(s) && !DenseInSymbols(s)
  {
    Indicator(HasMathChar(s)) + Indicator(HasMathWord(s))
    + Indicator(HasEquation(s)) + Indicator(DenseInSymbols(s))
  }

  /** `_looks_like_math`: at least `min_math_signals` signals fire. */
  predicate LooksLikeMath(cfg: MathPassConfig, s: string) {
    Signals(s) >= cfg.minMathSignals
  }

  /** The empty text fires no signal, so it is not math under the default. */
  lemma EmptyTextNotMath()
    ensures Signals("") == 0
    ensures !LooksLikeMath(DefaultConfig, "")
  {
  }

  /** Any operator or symbol character makes a text math under the default. */
  lemma MathCharIsMath(s: string, i: nat)
    requires i < |s| && IsMathChar(s[i])
    ensures LooksLikeMath(DefaultConfig, s)
  {
  }

  /** An equation-like match contains `=`, so it scores at least two signals. */
  lemma EquationScoresTwo(s: string)
    requires HasEquation(s)
    ensures HasMathChar(s)
    ensures Signals(s) >= 2
  {
    var i, j, k :| 0 <= i < j < k < |s| && EquationAt(s, i, j, k);
    assert IsMathChar(s[j]);
  }

  /** `x = 2y + 3` is math-like: it is equation-like and holds an operator. */
  lemma EquationExampleIsMath()
    ensures HasEquation("x = 2y + 3")
    ensures Signals("x = 2y + 3") >= 2
    ensures LooksLikeMath(DefaultConfig, "x = 2y + 3")
  {
    var s := "x = 2y + 3";
    assert EquationAt(s, 0, 2, 4) by {
      assert Text.AllSpace(s[1..2]) && Text.AllSpace(s[3..4]);
    }
    EquationScoresTwo(s);
  }

  /** A text of ASCII letters and spaces has no operator, no `=` and no symbols. */
  lemma LettersAndSpacesNoSymbols(s: string)
    requires forall i :: 0 <= i < |s| ==> Text.IsAsciiUpper(s[i]) || Text.IsAsciiLower(s[i]) || s[i] == ' '
    ensures !HasMathChar(s) && !HasEquation(s) && !DenseInSymbols(s)
  {
    if HasEquation(s) {
      EquationScoresTwo(s);
    }
    assert forall i :: 0 <= i < |s| ==> !IsSymbol(s[i]);
  }

  /** The first two letters of some word of `MathWords`. */
  predicate MathWordPair(a: char, b: char) {
    || (a == 's' && b == 'i') || (a == 'c' && b == 'o') || (a == 't' && b == 'a')
    || (a == 'l' && (b == 'o' || b == 'n' || b == 'i'))
    || (a == 'd' && (b == 'x' || b == 'y' || b == 'z'))
  }

  /** A math word starts after a non-word character with one of the word pairs. */
  lemma MathWordStart(s: string, i: nat, k: nat)
    requires k < |MathWords|
    ensures WordAt(s, i, MathWords[k]) ==>
              && i + 1 < |s|
              && (i == 0 || !Text.IsWordChar(s[i - 1]))
              && MathWordPair(Text.LowerChar(s[i]), Text.LowerChar(s[i + 1]))
  {
    var w := MathWords[k];
    if i + |w| <= |s| {
      var lowered := Text.Lower(s[i..i + |w|]);
      assert |w| >= 2;
      assert lowered[0] == Text.LowerChar(s[i]) && lowered[1] == Text.LowerChar(s[i + 1]);
    }
  }

  /**
   * Position `i` cannot start a math word: it follows a letter, or the two
   * characters there are not the start of any math word.
   */
  predicate NoWordStartAt(s: string, i: nat)
    requires i + 1 < |s|
  {
    || (i > 0 && (Text.IsAsciiUpper(s[i - 1]) || Text.IsAsciiLower(s[i - 1])))
    || !MathWordPair(Text.LowerChar(s[i]), Text.LowerChar(s[i + 1]))
  }

  /** No math word occurs when no position can start one. */
  lemma NoMathWord(s: string)
    requires forall i :: 0 <= i < |s| - 1 ==> NoWordStartAt(s, i)
    ensures !HasMathWord(s)
  {
    forall i, k | 0 <= i < |s| && 0 <= k < |MathWords|
      ensures !WordAt(s, i, MathWords[k])
    {
      MathWordStart(s, i, k);
      if i < |s| - 1 {
        assert NoWordStartAt(s, i);
      }
    }
  }

  /** A line of plain prose, used as a negative example for the classifier. */
  const ProseExample: string := "The quick brown fox"

  lemma ProseExampleLetters()
    ensures forall j :: 0 <= j < |ProseExample| ==>
              Text.IsAsciiUpper(ProseExample[j]) || Text.IsAsciiLower(ProseExample[j]) || ProseExample[j] == ' '
  {
    var s := ProseExample;
    forall j | 0 <= j < |s|
      ensures Text.IsAsciiUpper(s[j]) || Text.IsAsciiLower(s[j]) || s[j] == ' '
    {
      assert s == ['T', 'h', 'e', ' ', 'q', 'u', 'i', 'c', 'k', ' ', 'b', 'r', 'o', 'w', 'n', ' ', 'f', 'o', 'x'];
    }
  }

  lemma ProseExampleWordStarts()
    ensures forall j :: 0 <= j < |ProseExample| - 1 ==> NoWordStartAt(ProseExample, j)
  {
    var s := ProseExample;
    forall j | 0 <= j < |s| - 1
      ensures NoWordStartAt(s, j)
    {
      assert s == ['T', 'h', 'e', ' ', 'q', 'u', 'i', 'c', 'k', ' ', 'b', 'r', 'o', 'w', 'n', ' ', 'f', 'o', 'x'];
    }
  }

  /** `The quick brown fox` fires no signal, so it is not math. */
  lemma ProseExampleNotMath()
    ensures Signals(ProseExample) == 0
    ensures !LooksLikeMath(DefaultConfig, ProseExample)
  {
    ProseExampleLetters();
    LettersAndSpacesNoSymbols(ProseExample);
    ProseExampleWordStarts();
    NoMathWord(ProseExample);
  }

  // ---------------------------------------------------------------------------
  // tag_blocks
  // ---------------------------------------------------------------------------

  /**
   * The text a block is classified by: `b2.get("text", "") or ""`, so a
   * missing or `None` text is classified as the empty string.
   */
  function ClassifiedText(text: Option<string>): (s: string)
    ensures text.None? ==> s == ""
    ensures text.Some? ==> s == text.value
  {
    text.GetOr("")
  }

  /** A block without text is never math when at least one signal is required. */
  lemma MissingTextNotMath(cfg: MathPassConfig)
    requires cfg.minMathSignals >= 1
    ensures !LooksLikeMath(cfg, ClassifiedText(None))
  {
    EmptyTextNotMath();
  }

  /** A block with its `is_math` key removed. */
  function Untag(b: Block): Block {
    b.(isMath := None)
  }

  /** `b2 = dict(b); b2["is_math"] = ...`: the block plus its verdict. */
  function TagBlock(cfg: MathPassConfig, b: Block): (r: Block)
    ensures Untag(r) == Untag(b)
    ensures r.isMath == Some(LooksLikeMath(cfg, b.text))
  {
    b.(isMath := Some(LooksLikeMath(cfg, b.text)))
  }

  /** The page copy with its blocks tagged, in order. */
  function TagPage(cfg: MathPassConfig, p: Page): (r: Page)
    ensures r.pageIndex == p.pageIndex && r.imagePath == p.imagePath
    ensures |r.blocks| == |p.blocks|
    ensures forall j :: 0 <= j < |p.blocks| ==> r.blocks[j] == TagBlock(cfg, p.blocks[j])
  {
    p.(blocks := seq(|p.blocks|, j requires 0 <= j < |p.blocks| => TagBlock(cfg, p.blocks[j])))
  }

  /**
   * `tag_blocks`: the same pages in the same order, each with the same blocks
   * in the same order, every block equal to its input plus its `is_math`
   * verdict; every other key of the result and of the pages is unchanged.
   */
  function TagBlocks(cfg: MathPassConfig, res: OcrResult): (r: OcrResult)
    ensures r.pageCount == res.pageCount && r.totalBlocks == res.totalBlocks
    ensures |r.pages| == |res.pages|
    ensures forall i :: 0 <= i < |res.pages| ==>
              && r.pages[i].pageIndex == res.pages[i].pageIndex
              && r.pages[i].imagePath == res.pages[i].imagePath
              && |r.pages[i].blocks| == |res.pages[i].blocks|
    ensures forall i, j :: 0 <= i < |res.pages| && 0 <= j < |res.pages[i].blocks| ==>
              && Untag(r.pages[i].blocks[j]) == Untag(res.pages[i].blocks[j])
              && r.pages[i].blocks[j].isMath == Some(LooksLikeMath(cfg, res.pages[i].blocks[j].text))
  {
    res.(pages := seq(|res.pages|, i requires 0 <= i < |res.pages| => TagPage(cfg, res.pages[i])))
  }

  /** Tagging an already tagged result recomputes the same verdicts. */
  lemma TagBlocksIdempotent(cfg: MathPassConfig, res: OcrResult)
    ensures TagBlocks(cfg, TagBlocks(cfg, res)) == TagBlocks(cfg, res)
  {
    var once := TagBlocks(cfg, res);
    var twice := TagBlocks(cfg, once);
    forall i | 0 <= i < |res.pages|
      ensures twice.pages[i] == once.pages[i]
    {
      assert twice.pages[i].blocks == once.pages[i].blocks;
    }
  }
}
