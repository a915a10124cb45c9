/** Slug helpers of quad/colleges/utils.py.

    `random_string_generator(size, chars)` joins `size` independent
    `random.choice(chars)` draws. The random source is a parameter here: each
    draw is supplied as an index, reduced into the alphabet.

    `unique_slugify(instance, new_slug, sluggified)` keeps a non-empty
    `new_slug`; otherwise it slugifies `sluggified` into `base_slug` and, while
    the current candidate is taken, replaces it by `base_slug` plus a fresh
    10-character random suffix. `slugify` is a parameter, left uninterpreted;
    the taken slugs are a set; the random suffixes come from a supplied list of
    draws, and the loop gives up (`OutOfDraws`) when that list runs out. */
module Slugs {
  import opened Results
  import opened Text

  const AsciiLowercase := "abcdefghijklmnopqrstuvwxyz"
  const Digits := "0123456789"
  const DefaultChars := AsciiLowercase + Digits
  const DefaultSize := 10

  datatype SlugError =
    | EmptyAlphabet   // `random.choice('')` raises IndexError
    | OutOfDraws      // the supplied random draws ran out before a free slug turned up

  /** `random_string_generator(size, chars)` with the `size` draws of `choice` given as `draws`. */
  function RandomString(size: nat, chars: string, draws: seq<nat>): (r: Result<string, SlugError>)
    requires |draws| == size
    ensures r.Err? <==> size > 0 && chars == []
    ensures r.Err? ==> r.error == EmptyAlphabet
    ensures r.Ok? ==> |r.value| == size
    ensures r.Ok? ==> forall k :: 0 <= k < |r.value| ==> r.value[k] in chars
    decreases size
  {
    if size == 0 then Ok([])
    else if chars == [] then Err(EmptyAlphabet)
    else
      match RandomString(size - 1, chars, draws[1..])
      case Ok(rest) => Ok([chars[draws[0] % |chars|]] + rest)
      case Err(e) => Err(e)
  }

  /** The default call `random_string_generator()`: ten lowercase letters or digits. */
  function DefaultRandomString(draws: seq<nat>): (r: string)
    requires |draws| == DefaultSize
    ensures |r| == 10
    ensures forall k :: 0 <= k < |r| ==> r[k] in DefaultChars
  {
    RandomString(|draws|, DefaultChars, draws).value
  }

  /** The suffix drawn on each retry of the loop, one `random_string_generator()` call per draw list. */
  function Suffixes(draws: seq<seq<nat>>): (r: seq<string>)
    requires forall k :: 0 <= k < |draws| ==> |draws[k]| == DefaultSize
    ensures |r| == |draws|
    ensures forall k :: 0 <= k < |r| ==> |r[k]| == DefaultSize
    ensures forall k, c :: 0 <= k < |r| && c in r[k] ==> c in DefaultChars
  {
    seq(|draws|, k requires 0 <= k < |draws| => DefaultRandomString(draws[k]))
  }

  /** Candidate `i` of the uniqueness loop: the base itself, then `base + suffixes[i - 1]`. */
  function Candidate(base: string, suffixes: seq<string>, i: nat): string
    requires i <= |suffixes|
  {
    if i == 0 then base else base + suffixes[i - 1]
  }

  /** Candidate `i` is the first one that is not taken. */
  predicate FirstFree(base: string, suffixes: seq<string>, taken: set<string>, i: nat)
  {
    && i <= |suffixes|
    && Candidate(base, suffixes, i) !in taken
    && forall j :: 0 <= j < i ==> Candidate(base, suffixes, j) in taken
  }

  predicate AllTaken(base: string, suffixes: seq<string>, taken: set<string>)
  {
    forall j :: 0 <= j <= |suffixes| ==> Candidate(base, suffixes, j) in taken
  }

  /** The `while` loop of `unique_slugify`, starting from `base_slug`. */
  method FindFreeSlug(base: string, taken: set<string>, suffixes: seq<string>)
    returns (r: Result<string, SlugError>)
    ensures base !in taken ==> r == Ok(base)
    ensures r.Ok? ==> r.value !in taken && IsPrefix(base, r.value)
    ensures r.Ok? ==> exists i :: FirstFree(base, suffixes, taken, i) && r.value == Candidate(base, suffixes, i)
    ensures r.Err? ==> r.error == OutOfDraws && AllTaken(base, suffixes, taken)
  {
    var slug := base;
    var used := 0;
    while slug in taken
      invariant used <= |suffixes|
      invariant slug == Candidate(base, suffixes, used)
      invariant IsPrefix(base, slug)
      invariant forall j :: 0 <= j < used ==> Candidate(base, suffixes, j) in taken
      decreases |suffixes| - used
    {
      if used == |suffixes| {
        return Err(OutOfDraws);
      }
      slug := base + suffixes[used];
      used := used + 1;
      assert slug[..|base|] == base;
    }
    assert FirstFree(base, suffixes, taken, used);
    return Ok(slug);
  }

  /** `unique_slugify(instance, new_slug, sluggified)`. `newSlug == None` is
      Python's `None`; both it and the empty string are falsy. */
  method UniqueSlugify(newSlug: Option<string>, sluggified: string, slugify: string -> string,
                       taken: set<string>, draws: seq<seq<nat>>)
    returns (r: Result<string, SlugError>)
    requires forall k :: 0 <= k < |draws| ==> |draws[k]| == DefaultSize
    ensures newSlug.Some? && newSlug.value != [] ==> r == Ok(newSlug.value)
    ensures !(newSlug.Some? && newSlug.value != []) && slugify(sluggified) !in taken ==> r == Ok(slugify(sluggified))
    ensures !(newSlug.Some? && newSlug.value != []) && r.Ok? ==> IsPrefix(slugify(sluggified), r.value)
    ensures !(newSlug.Some? && newSlug.value != []) && r.Ok? ==>
      r.value !in taken && exists i :: FirstFree(slugify(sluggified), Suffixes(draws), taken, i)
                                       && r.value == Candidate(slugify(sluggified), Suffixes(draws), i)
    ensures !(newSlug.Some? && newSlug.value != []) && r.Err? ==>
      r.error == OutOfDraws && AllTaken(slugify(sluggified), Suffixes(draws), taken)
  {
    if newSlug.Some? && newSlug.value != [] {
      return Ok(newSlug.value);
    }
    var baseSlug := slugify(sluggified);
    r := FindFreeSlug(baseSlug, taken, Suffixes(draws));
  }

  /** Every generated candidate extends the base slug by exactly ten characters:
      suffixes replace each other, they never pile up. */
  lemma CandidateShape(base: string, draws: seq<seq<nat>>, i: nat)
    requires 0 < i <= |draws|
    requires forall k :: 0 <= k < |draws| ==> |draws[k]| == DefaultSize
    ensures |Candidate(base, Suffixes(draws), i)| == |base| + 10
    ensures Candidate(base, Suffixes(draws), i)[..|base|] == base
    ensures Candidate(base, Suffixes(draws), i)[|base|..] == Suffixes(draws)[i - 1]
    ensures forall k :: |base| <= k < |Candidate(base, Suffixes(draws), i)| ==>
      Candidate(base, Suffixes(draws), i)[k] in DefaultChars
  {
  }
}
