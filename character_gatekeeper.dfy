/** The character gatekeeper: which characters and genders the user
    prefers, read from the plugin configuration and refreshed when it
    changes. */
module Gatekeeper {
  import opened Optional

  /** A character's gender. `Yes` is the configuration value meaning that
      any gender will do; the others are compared by name. */
  datatype Gender = Yes | Other(name: string)

  datatype CharacterAsset = CharacterAsset(id: string, characterGender: Gender)

  /** The part of the plugin configuration the gatekeeper reads. */
  datatype Config = Config(preferredCharacters: string, preferredGender: Gender)

  // ---------------------------------------------------------------------
  // Splitting the preference string

  /** Splitting at every occurrence of the delimiter: adjacent delimiters
      give empty segments, and the empty string gives one empty segment. */
  function Split(s: string, d: char): (r: seq<string>)
    ensures |r| >= 1
    ensures forall i :: 0 <= i < |r| ==> d !in r[i]
  {
    if s == [] then [[]]
    else
      var rest := Split(s[1..], d);
      if s[0] == d then [[]] + rest
      else [[s[0]] + rest[0]] + rest[1..]
  }

  /** The segments glued back together with the delimiter between them. */
  function Join(segs: seq<string>, d: char): string
    requires |segs| >= 1
  {
    if |segs| == 1 then segs[0] else segs[0] + [d] + Join(segs[1..], d)
  }

  /** Joining the segments gives the string back. */
  lemma {:induction false} JoinSplit(s: string, d: char)
    ensures Join(Split(s, d), d) == s
  {
    if s != [] {
      var rest := Split(s[1..], d);
      JoinSplit(s[1..], d);
      if s[0] == d {
        assert Split(s, d)[1..] == rest;
      } else {
        var r := Split(s, d);
        assert r[0] == [s[0]] + rest[0];
        if |rest| == 1 {
          assert r == [[s[0]] + rest[0]];
          assert s == [s[0]] + s[1..];
        } else {
          assert r[1..] == rest[1..];
          assert Join(rest, d) == rest[0] + [d] + Join(rest[1..], d);
          assert s == [s[0]] + s[1..];
        }
      }
    }
  }

  /** Splitting a join of delimiter-free segments gives the segments back:
      a preference string determines its segments and nothing else. */
  lemma {:induction false} SplitJoin(segs: seq<string>, d: char)
    requires |segs| >= 1
    requires forall i :: 0 <= i < |segs| ==> d !in segs[i]
    ensures Split(Join(segs, d), d) == segs
  {
    if |segs| == 1 {
      SplitFree(segs[0], d);
    } else {
      var tail := segs[1..];
      assert forall i :: 0 <= i < |tail| ==> tail[i] == segs[i + 1];
      SplitJoin(tail, d);
      SplitPrefix(segs[0], Join(tail, d), d);
      assert segs == [segs[0]] + tail;
    }
  }

  /** A string without the delimiter is a single segment. */
  lemma {:induction false} SplitFree(s: string, d: char)
    requires d !in s
    ensures Split(s, d) == [s]
  {
    if s != [] {
      assert d !in s[1..] by {
        forall i | 0 <= i < |s[1..]| ensures s[1..][i] != d { assert s[1..][i] == s[i + 1]; }
      }
      SplitFree(s[1..], d);
      assert s == [s[0]] + s[1..];
    }
  }

  /** A delimiter-free prefix followed by the delimiter is one segment in
      front of the rest's segments. */
  lemma {:induction false} SplitPrefix(a: string, b: string, d: char)
    requires d !in a
    ensures Split(a + [d] + b, d) == [a] + Split(b, d)
  {
    var s := a + [d] + b;
    if a == [] {
      assert s[0] == d && s[1..] == b;
    } else {
      assert s[0] == a[0];
      assert s[1..] == a[1..] + [d] + b;
      assert d !in a[1..] by {
        forall i | 0 <= i < |a[1..]| ensures a[1..][i] != d { assert a[1..][i] == a[i + 1]; }
      }
      SplitPrefix(a[1..], b, d);
      assert [a[0]] + a[1..] == a;
    }
  }

  // ---------------------------------------------------------------------
  // The preferred ids

  /** `extractAllowedCharactersFromState`: the lowercased non-empty
      segments of the preference string, as a set. `lower` stands for
      `toLowerCase`. */
  function ExtractAllowedCharacters(preferredCharacters: string, d: char, lower: string -> string): (r: set<string>)
    ensures forall seg :: seg in Split(preferredCharacters, d) && seg != [] ==> lower(seg) in r
    ensures forall id :: id in r ==> exists seg :: seg in Split(preferredCharacters, d) && seg != [] && id == lower(seg)
  {
    set seg | seg in Split(preferredCharacters, d) && seg != [] :: lower(seg)
  }

  /** For a preference string written as delimiter-free segments joined by
      the delimiter, the ids are exactly the lowercased non-empty
      segments. */
  lemma ExtractFromSegments(segs: seq<string>, d: char, lower: string -> string)
    requires |segs| >= 1
    requires forall i :: 0 <= i < |segs| ==> d !in segs[i]
    ensures ExtractAllowedCharacters(Join(segs, d), d, lower) == set seg | seg in segs && seg != [] :: lower(seg)
  {
    SplitJoin(segs, d);
  }

  /** The empty id is never preferred, since lowercasing keeps a non-empty
      string non-empty. */
  lemma NoEmptyId(preferredCharacters: string, d: char, lower: string -> string)
    requires forall s :: s != [] ==> lower(s) != []
    ensures [] !in ExtractAllowedCharacters(preferredCharacters, d, lower)
  {
  }

  /** Every id is already in lower case, since lowercasing twice is the
      same as lowercasing once. */
  lemma {:induction false} IdsAreLowercase(preferredCharacters: string, d: char, lower: string -> string)
    requires forall s :: lower(lower(s)) == lower(s)
    ensures forall id :: id in ExtractAllowedCharacters(preferredCharacters, d, lower) ==> lower(id) == id
  {
    forall id | id in ExtractAllowedCharacters(preferredCharacters, d, lower) ensures lower(id) == id {
      var seg :| seg in Split(preferredCharacters, d) && seg != [] && id == lower(seg);
      assert lower(lower(seg)) == lower(seg);
    }
  }

  // ---------------------------------------------------------------------
  // `any` over the character list

  /** Some character's id is in `ids`. */
  function AnyHasId(characters: seq<CharacterAsset>, ids: set<string>): (r: bool)
    ensures r <==> exists i :: 0 <= i < |characters| && characters[i].id in ids
  {
    if characters == [] then false
    else characters[0].id in ids || AnyHasId(characters[1..], ids)
  }

  /** Some character has gender `g`. */
  function AnyHasGender(characters: seq<CharacterAsset>, g: Gender): (r: bool)
    ensures r <==> exists i :: 0 <= i < |characters| && characters[i].characterGender == g
  {
    if characters == [] then false
    else characters[0].characterGender == g || AnyHasGender(characters[1..], g)
  }

  // ---------------------------------------------------------------------
  // The service

  class CharacterGatekeeper {
    /** `Config.DEFAULT_DELIMITER`. */
    const delimiter: char
    /** `String.toLowerCase`. */
    const lower: string -> string
    var preferredCharactersIds: set<string>
    var preferredGender: Gender
    /** The preference string the ids were last read from. */
    ghost var preferredCharacters: string

    /** The ids are those of the last preference string read. */
    ghost predicate Valid()
      reads this
    {
      preferredCharactersIds == ExtractAllowedCharacters(preferredCharacters, delimiter, lower)
    }

    /** Both fields are read from the configuration at construction. */
    constructor(config: Config, delimiter: char, lower: string -> string)
      ensures this.delimiter == delimiter && this.lower == lower
      ensures preferredCharacters == config.preferredCharacters && Valid()
      ensures preferredCharactersIds == ExtractAllowedCharacters(config.preferredCharacters, delimiter, lower)
      ensures preferredGender == config.preferredGender
    {
      this.delimiter := delimiter;
      this.lower := lower;
      preferredCharacters := config.preferredCharacters;
      preferredCharactersIds := ExtractAllowedCharacters(config.preferredCharacters, delimiter, lower);
      preferredGender := config.preferredGender;
    }

    /** The configuration listener: both fields are replaced from the new
        configuration, computed as at construction. */
    method OnConfigChanged(newPluginState: Config)
      modifies this`preferredCharactersIds, this`preferredGender, this`preferredCharacters
      ensures preferredCharacters == newPluginState.preferredCharacters && Valid()
      ensures preferredCharactersIds == ExtractAllowedCharacters(newPluginState.preferredCharacters, delimiter, lower)
      ensures preferredGender == newPluginState.preferredGender
    {
      preferredCharacters := newPluginState.preferredCharacters;
      preferredCharactersIds := ExtractAllowedCharacters(newPluginState.preferredCharacters, delimiter, lower);
      preferredGender := newPluginState.preferredGender;
    }

    /** `hasPreferredGender`: any gender will do when the preference is
        `Yes`; otherwise some character must have the preferred gender, and
        a missing list has none. */
    function HasPreferredGender(characters: Option<seq<CharacterAsset>>): (r: bool)
      reads this
      ensures preferredGender == Yes ==> r
      ensures preferredGender != Yes ==>
        (r <==> characters.Some? && exists i :: 0 <= i < |characters.value| && characters.value[i].characterGender == preferredGender)
    {
      preferredGender == Yes || (characters.Some? && AnyHasGender(characters.value, preferredGender))
    }

    /** `hasPreferredCharacter`: with no preferred ids the gender decides;
        otherwise some character's id must be preferred, and a missing list
        has none. */
    function HasPreferredCharacter(characters: Option<seq<CharacterAsset>>): (r: bool)
      reads this
      ensures preferredCharactersIds == {} ==> r == HasPreferredGender(characters)
      ensures preferredCharactersIds != {} ==>
        (r <==> characters.Some? && exists i :: 0 <= i < |characters.value| && characters.value[i].id in preferredCharactersIds)
    {
      (preferredCharactersIds == {} && HasPreferredGender(characters))
      || (characters.Some? && AnyHasId(characters.value, preferredCharactersIds))
    }

    /** `isPreferred`: the character's id, compared exactly, is the
        lowercased form of some non-empty segment of the preference string. */
    function IsPreferred(character: CharacterAsset): (r: bool)
      reads this
      requires Valid()
      ensures r <==> exists seg :: seg in Split(preferredCharacters, delimiter) && seg != [] && lower(seg) == character.id
    {
      character.id in preferredCharactersIds
    }
  }

  /** The comparison is exact: an id that lowercasing would change is never
      preferred, whatever the preference string. */
  lemma NotLowercaseNeverPreferred(g: CharacterGatekeeper, c: CharacterAsset)
    requires g.Valid()
    requires forall s :: g.lower(g.lower(s)) == g.lower(s)
    requires g.lower(c.id) != c.id
    ensures !g.IsPreferred(c)
  {
    IdsAreLowercase(g.preferredCharacters, g.delimiter, g.lower);
  }
}
