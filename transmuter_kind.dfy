/**
 * The first transmuter: four named text rewrites and the function that
 * applies one of them. `transmute` always produces a text.
 *
 * Case mapping is restricted to ASCII; `slug::slugify` is foreign code and
 * a parameter.
 */
module TransmuterKind {
  import opened Wrappers
  import opened Text
  import Transmutation

  datatype TransmutationKind = Lowercase | Uppercase | NoSpaces | Slugify

  /** `to_string`: the name of a kind. */
  function ToString(k: TransmutationKind): (name: string)
    ensures name != [] && forall i :: 0 <= i < |name| ==> 'a' <= name[i] <= 'z' || name[i] == '-'
  {
    match k
    case Lowercase => "lowercase"
    case Uppercase => "uppercase"
    case NoSpaces => "no-spaces"
    case Slugify => "slugify"
  }

  /** `from_str`: the kind a name stands for, if any. */
  function FromStr(text: string): (r: Option<TransmutationKind>)
    ensures r.Some? ==> ToString(r.value) == text
  {
    if text == "lowercase" then Some(Lowercase)
    else if text == "uppercase" then Some(Uppercase)
    else if text == "no-spaces" then Some(NoSpaces)
    else if text == "slugify" then Some(Slugify)
    else None
  }

  /** `all_variants`: the kinds in declaration order. */
  function AllVariants(): (kinds: seq<TransmutationKind>)
    ensures |kinds| == 4 && forall k :: k in kinds
  {
    var kinds := [Lowercase, Uppercase, NoSpaces, Slugify];
    assert forall k :: k in kinds by {
      forall k ensures k in kinds {
        if k.Lowercase? {
          assert kinds[0] == k;
        } else if k.Uppercase? {
          assert kinds[1] == k;
        } else if k.NoSpaces? {
          assert kinds[2] == k;
        } else if k.Slugify? {
          assert kinds[3] == k;
        }
      }
    }
    kinds
  }

  /**
   * Every kind's name parses back to it, and a string parses exactly when it
   * is some kind's name.
   */
  lemma NameRoundTrip(k: TransmutationKind, text: string)
    ensures FromStr(ToString(k)) == Some(k)
    ensures FromStr(text).None? <==> forall v :: ToString(v) != text
  {
    if FromStr(text).None? {
      forall v ensures ToString(v) != text {
        assert FromStr(ToString(v)) == Some(v);
      }
    }
  }

  /** `all_variants` lists each kind exactly once. */
  lemma AllVariantsOnce(k: TransmutationKind)
    ensures multiset(AllVariants())[k] == 1
  {
  }

  /**
   * `transmute` as written: the `no-spaces` kind lower-cases, exactly like
   * `lowercase`, instead of removing spaces.
   */
  function Transmute(input: string, kind: TransmutationKind, slugify: string -> string): (r: string)
    ensures kind != Slugify ==> |r| == |input|
    ensures kind == Uppercase ==> forall i :: 0 <= i < |input| ==> r[i] == AsciiUpper(input[i])
    ensures kind == Lowercase || kind == NoSpaces ==> forall i :: 0 <= i < |input| ==> r[i] == AsciiLower(input[i])
    ensures kind == Slugify ==> r == slugify(input)
  {
    match kind
    case Lowercase => AsciiLowercase(input)
    case Uppercase => AsciiUppercase(input)
    case NoSpaces => AsciiLowercase(input)
    case Slugify => slugify(input)
  }

  /**
   * As written, `no-spaces` is `lowercase` on every input, so every space of
   * the input survives: on "a b" the output is "a b".
   */
  lemma NoSpacesKeepsSpaces(input: string, slugify: string -> string)
    ensures Transmute(input, NoSpaces, slugify) == Transmute(input, Lowercase, slugify)
    ensures forall i :: 0 <= i < |input| && input[i] == ' ' ==> Transmute(input, NoSpaces, slugify)[i] == ' '
    ensures Transmute("a b", NoSpaces, slugify) == "a b"
  {
    var out := Transmute("a b", NoSpaces, slugify);
    assert out[0] == 'a' && out[1] == ' ' && out[2] == 'b';
  }

  /** `transmute` as the kind's name intends it: `no-spaces` removes the spaces. */
  function TransmuteIntended(input: string, kind: TransmutationKind, slugify: string -> string): (r: string)
    ensures kind == NoSpaces ==> ' ' !in r && multiset(r) == multiset(input)[' ' := 0]
    ensures kind != NoSpaces ==> r == Transmute(input, kind, slugify)
  {
    match kind
    case NoSpaces => Transmutation.RemoveSpaces(input)
    case _ => Transmute(input, kind, slugify)
  }
}
