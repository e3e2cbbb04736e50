/**
 * The transmutations of `transmuter_multithreading`: seven named ways of
 * rewriting a text. The name table gives each variant its command-line
 * name; `Transmute` applies one variant to an input.
 *
 * Case mapping and `is_alphanumeric` are restricted to ASCII here;
 * `slug::slugify` and the CSV rendering of this crate are foreign code and
 * are parameters.
 */
module Transmutation {
  import opened Wrappers
  import opened Text

  datatype Transmutation = Lowercase | Uppercase | NoSpaces | Slugify | Camelcase | ReverseTalk | Csv

  /** `to_string`: the name of a variant. */
  function ToString(t: Transmutation): (name: string)
    ensures name != [] && forall i :: 0 <= i < |name| ==> 'a' <= name[i] <= 'z' || name[i] == '-'
  {
    match t
    case Lowercase => "lowercase"
    case Uppercase => "uppercase"
    case NoSpaces => "no-spaces"
    case Slugify => "slugify"
    case Camelcase => "camelcase"
    case ReverseTalk => "reverse-talk"
    case Csv => "csv"
  }

  /** `from_str`: the variant a name stands for, if any. */
  function FromStr(text: string): (r: Option<Transmutation>)
    ensures r.Some? ==> ToString(r.value) == text
  {
    if text == "lowercase" then Some(Lowercase)
    else if text == "uppercase" then Some(Uppercase)
    else if text == "no-spaces" then Some(NoSpaces)
    else if text == "slugify" then Some(Slugify)
    else if text == "camelcase" then Some(Camelcase)
    else if text == "reverse-talk" then Some(ReverseTalk)
    else if text == "csv" then Some(Csv)
    else None
  }

  /** `all_variants`: every variant in declaration order. */
  function AllVariants(): (ts: seq<Transmutation>)
    ensures |ts| == 7 && forall t :: t in ts
  {
    var ts := [Lowercase, Uppercase, NoSpaces, Slugify, Camelcase, ReverseTalk, Csv];
    assert forall t :: t in ts by {
      forall t ensures t in ts {
        if t.Lowercase? {
          assert ts[0] == t;
        } else if t.Uppercase? {
          assert ts[1] == t;
        } else if t.NoSpaces? {
          assert ts[2] == t;
        } else if t.Slugify? {
          assert ts[3] == t;
        } else if t.Camelcase? {
          assert ts[4] == t;
        } else if t.ReverseTalk? {
          assert ts[5] == t;
        } else if t.Csv? {
          assert ts[6] == t;
        }
      }
    }
    ts
  }

  /**
   * The name table is a bijection: every variant's name parses back to it,
   * and a string parses exactly when it is some variant's name. In
   * particular no two variants share a name.
   */
  lemma NameRoundTrip(t: Transmutation, text: string)
    ensures FromStr(ToString(t)) == Some(t)
    ensures FromStr(text).None? <==> forall v :: ToString(v) != text
  {
    if FromStr(text).None? {
      forall v ensures ToString(v) != text {
        assert FromStr(ToString(v)) == Some(v);
      }
    }
  }

  /** `all_variants` lists each variant exactly once. */
  lemma AllVariantsOnce(t: Transmutation)
    ensures multiset(AllVariants())[t] == 1
  {
  }

  // ---------------------------------------------------------------------------
  // no-spaces

  /** `input.replace(" ", "")`. */
  function RemoveSpaces(s: string): (r: string)
    ensures ' ' !in r
    ensures multiset(r) == multiset(s)[' ' := 0]
    decreases |s|
  {
    if s == [] then []
    else
      assert s == [s[0]] + s[1..];
      (if s[0] == ' ' then [] else [s[0]]) + RemoveSpaces(s[1..])
  }

  /** Removing spaces works piece by piece, so the other characters keep their order. */
  lemma {:induction false} RemoveSpacesAppend(a: string, b: string)
    ensures RemoveSpaces(a + b) == RemoveSpaces(a) + RemoveSpaces(b)
    decreases |a|
  {
    if a == [] {
      assert a + b == b;
    } else {
      assert (a + b)[0] == a[0] && (a + b)[1..] == a[1..] + b;
      RemoveSpacesAppend(a[1..], b);
    }
  }

  // ---------------------------------------------------------------------------
  // camel case

  /** The positions of the alphanumeric characters of `s`, ascending. */
  function AlnumIndices(s: string): (idx: seq<nat>)
    ensures forall k :: 0 <= k < |idx| ==> idx[k] < |s| && IsAsciiAlphanumeric(s[idx[k]])
    ensures forall k, l :: 0 <= k < l < |idx| ==> idx[k] < idx[l]
    ensures forall i :: 0 <= i < |s| && IsAsciiAlphanumeric(s[i]) ==> i in idx
    decreases |s|
  {
    if s == [] then []
    else
      var front := AlnumIndices(s[..|s| - 1]);
      assert forall i :: 0 <= i < |s| - 1 ==> s[..|s| - 1][i] == s[i];
      front + (if IsAsciiAlphanumeric(s[|s| - 1]) then [|s| - 1] else [])
  }

  /** Whether position `i` starts a run of alphanumeric characters. */
  predicate StartsRun(s: string, i: nat)
    requires i < |s|
  {
    i == 0 || !IsAsciiAlphanumeric(s[i - 1])
  }

  /** The output character for the alphanumeric at `i`: upper-cased at the start of a run. */
  function CamelChar(s: string, i: nat): char
    requires i < |s|
  {
    if StartsRun(s, i) then AsciiUpper(s[i]) else s[i]
  }

  /**
   * The camel-case text of `s`, built from the back: the last character is
   * kept, upper-cased at the start of a run, when it is alphanumeric.
   */
  function CamelText(s: string): string
    decreases |s|
  {
    if s == [] then []
    else CamelText(s[..|s| - 1]) + (if IsAsciiAlphanumeric(s[|s| - 1]) then [CamelChar(s, |s| - 1)] else [])
  }

  /**
   * What the camel-case text is: one character per alphanumeric character
   * of the input, in order, upper-cased exactly at the start of a run;
   * everything else is dropped.
   */
  lemma {:induction false} CamelTextChars(s: string)
    ensures |CamelText(s)| == |AlnumIndices(s)|
    ensures forall k :: 0 <= k < |CamelText(s)| ==> CamelText(s)[k] == CamelChar(s, AlnumIndices(s)[k])
    decreases |s|
  {
    if s != [] {
      var p := s[..|s| - 1];
      CamelTextChars(p);
      var ip, tp := AlnumIndices(p), CamelText(p);
      var last := |s| - 1;
      assert AlnumIndices(s) == ip + (if IsAsciiAlphanumeric(s[last]) then [last] else []);
      assert CamelText(s) == tp + (if IsAsciiAlphanumeric(s[last]) then [CamelChar(s, last)] else []);
      forall k | 0 <= k < |CamelText(s)|
        ensures CamelText(s)[k] == CamelChar(s, AlnumIndices(s)[k])
      {
        if k < |tp| {
          var j := ip[k];
          assert j < |p| && p[j] == s[j] && (j == 0 || p[j - 1] == s[j - 1]);
          assert CamelText(s)[k] == tp[k] && AlnumIndices(s)[k] == j;
        }
      }
    }
  }

  /** `to_camel_case`: scan once, remembering whether the next alphanumeric starts a run. */
  method ToCamelCase(input: string) returns (r: string)
    ensures r == CamelText(input)
  {
    r := "";
    var capitalizeNext := true;
    var i := 0;
    while i < |input|
      invariant 0 <= i <= |input|
      invariant capitalizeNext == (i == 0 || !IsAsciiAlphanumeric(input[i - 1]))
      invariant r == CamelText(input[..i])
    {
      var c := input[i];
      assert input[..i + 1][..i] == input[..i];
      if IsAsciiAlphanumeric(c) {
        if capitalizeNext {
          r := r + [AsciiUpper(c)];
          capitalizeNext := false;
        } else {
          r := r + [c];
        }
      } else {
        capitalizeNext := true;
      }
      i := i + 1;
    }
    assert input[..i] == input;
  }

  // ---------------------------------------------------------------------------
  // reverse talk

  function Reverse(w: string): (r: string)
    ensures |r| == |w| && forall i :: 0 <= i < |w| ==> r[i] == w[|w| - 1 - i]
  {
    seq(|w|, i requires 0 <= i < |w| => w[|w| - 1 - i])
  }

  lemma ReverseTwice(w: string)
    ensures Reverse(Reverse(w)) == w
  {
    forall i | 0 <= i < |w| ensures Reverse(Reverse(w))[i] == w[i] {
      assert Reverse(Reverse(w))[i] == Reverse(w)[|w| - 1 - i];
    }
  }

  /** Each word reversed, in their order. */
  function ReverseEach(ws: seq<string>): (rs: seq<string>)
    ensures |rs| == |ws| && forall k :: 0 <= k < |ws| ==> rs[k] == Reverse(ws[k])
  {
    seq(|ws|, k requires 0 <= k < |ws| => Reverse(ws[k]))
  }

  /** `reverse_talk`: every whitespace-separated word reversed, joined by single spaces. */
  function ReverseTalkOf(s: string): (r: string)
    ensures Words(r) == ReverseEach(Words(s))
  {
    ReverseWords(Words(s));
    WordsOfJoin(ReverseEach(Words(s)));
    Join(ReverseEach(Words(s)), " ")
  }

  lemma ReverseWords(ws: seq<string>)
    requires forall k :: 0 <= k < |ws| ==> IsWord(ws[k])
    ensures forall k :: 0 <= k < |ws| ==> IsWord(ReverseEach(ws)[k])
    ensures ReverseEach(ReverseEach(ws)) == ws
  {
    forall k | 0 <= k < |ws| ensures IsWord(ReverseEach(ws)[k]) {
      var w := ws[k];
      forall i | 0 <= i < |w| ensures !IsWhitespace(Reverse(w)[i]) {
        assert Reverse(w)[i] == w[|w| - 1 - i];
      }
    }
    forall k | 0 <= k < |ws| ensures ReverseEach(ReverseEach(ws))[k] == ws[k] {
      ReverseTwice(ws[k]);
    }
  }

  /**
   * The words of the output are the input's words reversed, in the same
   * order; a blank input gives the empty string.
   */
  lemma ReverseTalkWords(s: string)
    ensures Words(ReverseTalkOf(s)) == ReverseEach(Words(s))
    ensures (forall i :: 0 <= i < |s| ==> IsWhitespace(s[i])) ==> ReverseTalkOf(s) == ""
  {
    ReverseWords(Words(s));
    WordsOfJoin(ReverseEach(Words(s)));
    WordsEmptyIffBlank(s, []);
  }

  /** Reversing twice gives the input's words joined by single spaces. */
  lemma ReverseTalkTwice(s: string)
    ensures ReverseTalkOf(ReverseTalkOf(s)) == Join(Words(s), " ")
  {
    ReverseTalkWords(s);
    ReverseWords(Words(s));
  }

  // ---------------------------------------------------------------------------
  // transmute

  /**
   * `transmute`: apply a variant. Only the CSV variant can fail; the others
   * always give a text.
   */
  method Transmute(t: Transmutation, input: string, slugify: string -> string, csvRender: string -> Result<string, string>)
    returns (r: Result<string, string>)
    ensures t != Csv ==> r.Ok?
    ensures t == Csv ==> r == csvRender(input)
    ensures t == Lowercase ==> r.value == AsciiLowercase(input)
    ensures t == Uppercase ==> r.value == AsciiUppercase(input)
    ensures t == NoSpaces ==> r.value == RemoveSpaces(input)
    ensures t == Slugify ==> r.value == slugify(input)
    ensures t == Camelcase ==> r.value == CamelText(input)
    ensures t == ReverseTalk ==> r.value == ReverseTalkOf(input)
  {
    match t
    case Lowercase => r := Ok(AsciiLowercase(input));
    case Uppercase => r := Ok(AsciiUppercase(input));
    case NoSpaces => r := Ok(RemoveSpaces(input));
    case Slugify => r := Ok(slugify(input));
    case Camelcase =>
      var camel := ToCamelCase(input);
      r := Ok(camel);
    case ReverseTalk => r := Ok(ReverseTalkOf(input));
    case Csv => r := csvRender(input);
  }
}
