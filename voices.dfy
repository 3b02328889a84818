/** The voice listing: custom voices first, then system voices grouped by
    language with the language groups in descending collation order, each
    projected to a display option; and the choice of a default voice. */
module Voices {
  import opened Wrappers
  import opened Seqs
  import opened Remote

  /** A voice record of the platform. */
  datatype Voice = Voice(
    voiceId: string, name: string, languageCode: string, languageName: string,
    isSystemVoice: bool, previewAudio: string, previewText: string,
    availableTrainingTimes: int)

  /** The display projection of a voice; `caption` is the display label. */
  datatype VoiceOption = VoiceOption(
    value: string, previewUrl: string, name: string, languageCode: string,
    languageName: string, isSystemVoice: bool, caption: string,
    previewText: string, availableTrainingTimes: int)

  // ---------------------------------------------------------------------
  // The collation order

  /** The collation order of language names: `less(a, b)` when `a` collates
      before `b`. Any strict total order will do. */
  ghost predicate StrictTotalOrder(less: (string, string) -> bool) {
    && (forall a :: !less(a, a))
    && (forall a, b :: a != b ==> less(a, b) || less(b, a))
    && (forall a, b, c :: less(a, b) && less(b, c) ==> less(a, c))
  }

  /** Strictly descending: every name collates after all names behind it. */
  ghost predicate Descending(ks: seq<string>, less: (string, string) -> bool) {
    forall i, j :: 0 <= i < j < |ks| ==> less(ks[j], ks[i])
  }

  // ---------------------------------------------------------------------
  // Projection

  /** The display projection of one voice. */
  function Format(v: Voice): (o: VoiceOption)
    ensures o.caption == v.name + " (" + v.languageName + ")"
    ensures Unformat(o) == v
  {
    VoiceOption(v.voiceId, v.previewAudio, v.name, v.languageCode, v.languageName,
                v.isSystemVoice, v.name + " (" + v.languageName + ")",
                v.previewText, v.availableTrainingTimes)
  }

  /** The voice a display option was projected from: `Format` loses nothing. */
  function Unformat(o: VoiceOption): (v: Voice) {
    Voice(o.value, o.name, o.languageCode, o.languageName, o.isSystemVoice,
          o.previewUrl, o.previewText, o.availableTrainingTimes)
  }

  /** The voices a list of display options was projected from. */
  function UnformatAll(os: seq<VoiceOption>): (vs: seq<Voice>)
    ensures |vs| == |os|
  {
    seq(|os|, i requires 0 <= i < |os| => Unformat(os[i]))
  }

  /** The projection of a list of voices, element by element. */
  function FormatAll(vs: seq<Voice>): (os: seq<VoiceOption>)
    ensures |os| == |vs|
  {
    seq(|vs|, i requires 0 <= i < |vs| => Format(vs[i]))
  }

  /** Each display option is the projection of the voice at the same position. */
  lemma FormatAllAt(vs: seq<Voice>)
    ensures forall i :: 0 <= i < |vs| ==> FormatAll(vs)[i] == Format(vs[i])
  {
  }

  // ---------------------------------------------------------------------
  // Filters

  /** The custom voices, in order. */
  function Custom(vs: seq<Voice>): (r: seq<Voice>)
    ensures forall v :: v in r ==> v in vs && !v.isSystemVoice
  {
    if vs == [] then []
    else if !vs[0].isSystemVoice then [vs[0]] + Custom(vs[1..])
    else Custom(vs[1..])
  }

  /** The system voices, in order. */
  function System(vs: seq<Voice>): (r: seq<Voice>)
    ensures forall v :: v in r ==> v in vs && v.isSystemVoice
  {
    if vs == [] then []
    else if vs[0].isSystemVoice then [vs[0]] + System(vs[1..])
    else System(vs[1..])
  }

  /** The voices of one language, in order. */
  function OfLanguage(vs: seq<Voice>, lang: string): (r: seq<Voice>)
    ensures forall v :: v in r ==> v in vs && v.languageName == lang
  {
    if vs == [] then []
    else if vs[0].languageName == lang then [vs[0]] + OfLanguage(vs[1..], lang)
    else OfLanguage(vs[1..], lang)
  }

  /** The voices whose language is one of `langs`, in order. */
  function InLanguages(vs: seq<Voice>, langs: seq<string>): (r: seq<Voice>) {
    if vs == [] then []
    else if vs[0].languageName in langs then [vs[0]] + InLanguages(vs[1..], langs)
    else InLanguages(vs[1..], langs)
  }

  // ---------------------------------------------------------------------
  // Grouping, sorting, flattening

  /** The language names of `vs` in order of first occurrence: the key order
      of the grouping dictionary. */
  function Languages(vs: seq<Voice>): (ls: seq<string>)
    ensures Distinct(ls)
  {
    if vs == [] then []
    else
      var ls := Languages(vs[..|vs| - 1]);
      var last := vs[|vs| - 1].languageName;
      if last in ls then ls else ls + [last]
  }

  /** Every language of `vs`, and only those, is a key. */
  lemma {:induction false} LanguagesMembers(vs: seq<Voice>)
    ensures forall l :: l in Languages(vs) <==> exists v :: v in vs && v.languageName == l
  {
    if vs != [] {
      var front := vs[..|vs| - 1];
      assert vs == front + [vs[|vs| - 1]];
      assert forall v :: v in vs <==> v in front || v == vs[|vs| - 1];
      LanguagesMembers(front);
    }
  }

  /** The grouping dictionary: each language name to its voices, in order. */
  function GroupsOf(vs: seq<Voice>): (g: map<string, seq<Voice>>) {
    map l | l in Languages(vs) :: OfLanguage(vs, l)
  }

  /** Groups `system` by language name, appending each voice to its
      language's list and creating the list on first sight. */
  method GroupByLanguage(system: seq<Voice>) returns (keys: seq<string>, groups: map<string, seq<Voice>>)
    ensures keys == Languages(system)
    ensures groups == GroupsOf(system)
  {
    keys, groups := [], map[];
    for i := 0 to |system|
      invariant keys == Languages(system[..i])
      invariant groups == GroupsOf(system[..i])
    {
      var voice := system[i];
      var languageName := voice.languageName;
      ghost var seen := system[..i];
      assert system[..i + 1] == seen + [voice];
      GroupsStep(seen, voice);
      var group: seq<Voice> := [];
      if languageName in groups {
        group := groups[languageName];
      } else {
        keys := keys + [languageName];
      }
      groups := groups[languageName := group + [voice]];
    }
    assert system[..|system|] == system;
  }

  /** What appending one voice does to the grouping dictionary: its
      language's list, created empty on first sight, gains the voice. */
  lemma GroupsStep(seen: seq<Voice>, voice: Voice)
    ensures Languages(seen + [voice]) == if voice.languageName in Languages(seen) then Languages(seen)
                                       else Languages(seen) + [voice.languageName]
    ensures var g := GroupsOf(seen);
            var l := voice.languageName;
            GroupsOf(seen + [voice]) == g[l := (if l in g then g[l] else []) + [voice]]
  {
    var l := voice.languageName;
    LanguagesStep(seen, voice);
    var g := GroupsOf(seen);
    var g2 := GroupsOf(seen + [voice]);
    var g' := g[l := (if l in g then g[l] else []) + [voice]];
    forall k | k in g' ensures g2[k] == g'[k] {
      GroupEntryStep(seen, voice, k);
    }
    assert g2.Keys == g'.Keys;
  }

  /** The key order after appending one voice. */
  lemma LanguagesStep(seen: seq<Voice>, voice: Voice)
    ensures Languages(seen + [voice]) == if voice.languageName in Languages(seen) then Languages(seen)
                                       else Languages(seen) + [voice.languageName]
  {
    assert (seen + [voice])[..|seen|] == seen;
  }

  /** One language's list after appending one voice. */
  lemma GroupEntryStep(seen: seq<Voice>, voice: Voice, k: string)
    ensures OfLanguage(seen + [voice], k)
         == (if k in Languages(seen) then OfLanguage(seen, k) else [])
          + (if k == voice.languageName then [voice] else [])
  {
    OfLanguageConcat(seen, [voice], k);
    assert OfLanguage([voice], k) == if k == voice.languageName then [voice] else [];
    if k !in Languages(seen) {
      LanguagesMembers(seen);
      OfLanguageAbsent(seen, k);
    }
  }

  /** What appending one voice does to the key order and to each group. */
  lemma GroupStep(seen: seq<Voice>, voice: Voice)
    ensures Languages(seen + [voice]) == if voice.languageName in Languages(seen) then Languages(seen)
                                       else Languages(seen) + [voice.languageName]
    ensures voice.languageName !in Languages(seen) ==> OfLanguage(seen, voice.languageName) == []
    ensures forall l ::
      OfLanguage(seen + [voice], l) == OfLanguage(seen, l) + (if l == voice.languageName then [voice] else [])
  {
    assert (seen + [voice])[..|seen|] == seen;
    if voice.languageName !in Languages(seen) {
      LanguagesMembers(seen);
      OfLanguageAbsent(seen, voice.languageName);
    }
    forall l ensures OfLanguage(seen + [voice], l)
      == OfLanguage(seen, l) + (if l == voice.languageName then [voice] else []) {
      OfLanguageConcat(seen, [voice], l);
    }
  }

  /** Where `k` goes in a descending list: before the first name that
      collates before it. */
  function Insert(k: string, s: seq<string>, less: (string, string) -> bool): (r: seq<string>)
    ensures multiset(r) == multiset(s) + multiset{k}
  {
    if s == [] then [k]
    else if less(s[0], k) then [k] + s
    else
      assert s == [s[0]] + s[1..];
      [s[0]] + Insert(k, s[1..], less)
  }

  /** The language names sorted with the comparator `(a, b) => b.localeCompare(a)`:
      `a` goes before `b` when `b` collates before `a`. */
  function SortDescending(ks: seq<string>, less: (string, string) -> bool): (r: seq<string>)
    ensures multiset(r) == multiset(ks)
  {
    if ks == [] then []
    else
      assert ks == [ks[0]] + ks[1..];
      Insert(ks[0], SortDescending(ks[1..], less), less)
  }

  /** The groups of `ks`, one after the other. */
  function Flatten(ks: seq<string>, groups: map<string, seq<Voice>>): (r: seq<Voice>)
    requires forall k :: k in ks ==> k in groups
  {
    if ks == [] then [] else groups[ks[0]] + Flatten(ks[1..], groups)
  }

  /** A voice is in the flattened list exactly when it is in the group of one of the keys. */
  lemma {:induction false} FlattenMembers(ks: seq<string>, groups: map<string, seq<Voice>>)
    requires forall k :: k in ks ==> k in groups
    ensures forall v :: v in Flatten(ks, groups) <==> exists k :: k in ks && v in groups[k]
  {
    if ks != [] {
      FlattenMembers(ks[1..], groups);
      assert forall k :: k in ks <==> k == ks[0] || k in ks[1..];
    }
  }

  /** The system voices reordered: grouped by language, groups sorted by
      descending language name, flattened. */
  function SystemOrder(system: seq<Voice>, less: (string, string) -> bool): (r: seq<Voice>) {
    var keys := SortDescending(Languages(system), less);
    assert forall k :: k in keys ==> k in Languages(system) by {
      assert forall k :: k in keys <==> k in multiset(keys);
    }
    Flatten(keys, GroupsOf(system))
  }

  /** The order of the voice listing: custom voices, then the reordered system voices. */
  function VoiceOrder(vs: seq<Voice>, less: (string, string) -> bool): (r: seq<Voice>) {
    Custom(vs) + SystemOrder(System(vs), less)
  }

  /** Lists the voices (one unpaginated request) and returns their projections:
      custom voices first, then system voices by descending language name.
      Undefined (no client) lists nothing; an exception propagates. */
  method FetchAllVoices(response: Option<Reply<Voice>>, less: (string, string) -> bool)
    returns (r: Result<seq<VoiceOption>, Error>)
    ensures Failed(response) ==> r == Failure(Thrown(response.value.message))
    ensures !Failed(response) ==> r == Success(FormatAll(VoiceOrder(ItemsOf(response), less)))
  {
    if Failed(response) {
      return Failure(Thrown(response.value.message));
    }
    var voiceList := ItemsOf(response);
    var customVoices := Custom(voiceList);
    var systemVoices := System(voiceList);
    var keys, systemVoicesByLanguage := GroupByLanguage(systemVoices);
    var sortedKeys := SortDescending(keys, less);
    assert forall k :: k in sortedKeys ==> k in keys by {
      assert forall k :: k in sortedKeys <==> k in multiset(sortedKeys);
    }
    var sortedSystemVoices := Flatten(sortedKeys, systemVoicesByLanguage);
    return Success(FormatAll(customVoices + sortedSystemVoices));
  }

  // ---------------------------------------------------------------------
  // The default voice

  predicate IsCustomOption(o: VoiceOption) {
    !o.isSystemVoice
  }

  /** The first custom voice, or else the first voice, or else undefined. */
  function PickVoice(voices: seq<VoiceOption>): (r: Option<VoiceOption>)
    ensures r.None? <==> voices == []
    ensures (exists i :: 0 <= i < |voices| && !voices[i].isSystemVoice) ==>
      exists i :: 0 <= i < |voices| && r == Some(voices[i]) && !voices[i].isSystemVoice
        && forall j :: 0 <= j < i ==> voices[j].isSystemVoice
    ensures (forall i :: 0 <= i < |voices| ==> voices[i].isSystemVoice) && voices != [] ==>
      r == Some(voices[0])
  {
    match FindFirst(voices, IsCustomOption)
    case Some(i) => Some(voices[i])
    case None => if |voices| > 0 then Some(voices[0]) else None
  }

  /** Lists the voices and picks the default one. */
  method GetSomeVoice(response: Option<Reply<Voice>>, less: (string, string) -> bool)
    returns (r: Result<Option<VoiceOption>, Error>)
    ensures Failed(response) ==> r == Failure(Thrown(response.value.message))
    ensures !Failed(response) ==> r == Success(PickVoice(FormatAll(VoiceOrder(ItemsOf(response), less))))
  {
    var voices := FetchAllVoices(response, less);
    match voices
    case Failure(e) => return Failure(e);
    case Success(vs) => return Success(PickVoice(vs));
  }

  // ---------------------------------------------------------------------
  // Filter lemmas

  lemma {:induction false} OfLanguageConcat(a: seq<Voice>, b: seq<Voice>, lang: string)
    ensures OfLanguage(a + b, lang) == OfLanguage(a, lang) + OfLanguage(b, lang)
  {
    if a != [] {
      assert (a + b)[1..] == a[1..] + b;
      OfLanguageConcat(a[1..], b, lang);
    } else {
      assert a + b == b;
    }
  }

  lemma {:induction false} CustomConcat(a: seq<Voice>, b: seq<Voice>)
    ensures Custom(a + b) == Custom(a) + Custom(b)
  {
    if a != [] {
      assert (a + b)[1..] == a[1..] + b;
      CustomConcat(a[1..], b);
    } else {
      assert a + b == b;
    }
  }

  lemma {:induction false} SystemConcat(a: seq<Voice>, b: seq<Voice>)
    ensures System(a + b) == System(a) + System(b)
  {
    if a != [] {
      assert (a + b)[1..] == a[1..] + b;
      SystemConcat(a[1..], b);
    } else {
      assert a + b == b;
    }
  }

  /** Filtering keeps a list of system voices whole and empties its custom part. */
  lemma {:induction false} AllSystem(vs: seq<Voice>)
    requires forall v :: v in vs ==> v.isSystemVoice
    ensures System(vs) == vs && Custom(vs) == []
  {
    if vs != [] {
      assert forall v :: v in vs[1..] ==> v in vs;
      AllSystem(vs[1..]);
    }
  }

  /** Filtering keeps a list of custom voices whole and empties its system part. */
  lemma {:induction false} AllCustom(vs: seq<Voice>)
    requires forall v :: v in vs ==> !v.isSystemVoice
    ensures Custom(vs) == vs && System(vs) == []
  {
    if vs != [] {
      assert forall v :: v in vs[1..] ==> v in vs;
      AllCustom(vs[1..]);
    }
  }

  /** The custom and the system voices together are all the voices. */
  lemma {:induction false} PartitionMultiset(vs: seq<Voice>)
    ensures multiset(Custom(vs)) + multiset(System(vs)) == multiset(vs)
  {
    if vs != [] {
      PartitionMultiset(vs[1..]);
      assert vs == [vs[0]] + vs[1..];
    }
  }

  /** The voices of one language among the voices of one language. */
  lemma {:induction false} OfLanguageTwice(vs: seq<Voice>, k: string, lang: string)
    ensures OfLanguage(OfLanguage(vs, k), lang) == if k == lang then OfLanguage(vs, lang) else []
  {
    if vs != [] {
      OfLanguageTwice(vs[1..], k, lang);
    }
  }

  /** A language no voice has selects nothing. */
  lemma {:induction false} OfLanguageAbsent(vs: seq<Voice>, lang: string)
    requires forall v :: v in vs ==> v.languageName != lang
    ensures OfLanguage(vs, lang) == []
  {
    if vs != [] {
      assert forall v :: v in vs[1..] ==> v in vs;
      OfLanguageAbsent(vs[1..], lang);
    }
  }

  /** Selecting one more language adds that language's voices. */
  lemma {:induction false} InLanguagesCons(vs: seq<Voice>, k: string, ks: seq<string>)
    requires k !in ks
    ensures multiset(InLanguages(vs, [k] + ks)) == multiset(OfLanguage(vs, k)) + multiset(InLanguages(vs, ks))
  {
    if vs != [] {
      InLanguagesCons(vs[1..], k, ks);
    }
  }

  /** Selecting no language selects nothing. */
  lemma {:induction false} InLanguagesNone(vs: seq<Voice>)
    ensures InLanguages(vs, []) == []
  {
    if vs != [] {
      InLanguagesNone(vs[1..]);
    }
  }

  /** Selecting every language present keeps every voice. */
  lemma {:induction false} InLanguagesAll(vs: seq<Voice>, ks: seq<string>)
    requires forall v :: v in vs ==> v.languageName in ks
    ensures InLanguages(vs, ks) == vs
  {
    if vs != [] {
      assert forall v :: v in vs[1..] ==> v in vs;
      InLanguagesAll(vs[1..], ks);
    }
  }

  // ---------------------------------------------------------------------
  // Sorting lemmas

  lemma {:induction false} InsertDistinct(k: string, s: seq<string>, less: (string, string) -> bool)
    requires Distinct(s) && k !in s
    ensures Distinct(Insert(k, s, less))
  {
    if s != [] && !less(s[0], k) {
      assert s[0] !in s[1..];
      InsertDistinct(k, s[1..], less);
      var r := Insert(k, s[1..], less);
      assert s[0] !in multiset(r);
    }
  }

  /** Sorting distinct names keeps them distinct. */
  lemma {:induction false} SortDistinct(ks: seq<string>, less: (string, string) -> bool)
    requires Distinct(ks)
    ensures Distinct(SortDescending(ks, less))
  {
    if ks != [] {
      SortDistinct(ks[1..], less);
      assert ks[0] !in ks[1..];
      assert ks[0] !in multiset(SortDescending(ks[1..], less));
      InsertDistinct(ks[0], SortDescending(ks[1..], less), less);
    }
  }

  lemma {:induction false} InsertDescending(k: string, s: seq<string>, less: (string, string) -> bool)
    requires StrictTotalOrder(less) && Descending(s, less) && k !in s
    ensures Descending(Insert(k, s, less), less)
  {
    if s == [] {
    } else if less(s[0], k) {
      var r := [k] + s;
      forall i, j | 0 <= i < j < |r| ensures less(r[j], r[i]) {
        if i == 0 && j > 1 {
          assert less(s[j - 1], s[0]);
        }
      }
    } else {
      assert less(k, s[0]);
      InsertDescending(k, s[1..], less);
      var t := Insert(k, s[1..], less);
      var r := [s[0]] + t;
      forall i, j | 0 <= i < j < |r| ensures less(r[j], r[i]) {
        if i == 0 {
          assert r[j] in multiset(t);
          assert r[j] == k || r[j] in s[1..];
        }
      }
    }
  }

  /** Sorting distinct language names puts them in strictly descending order. */
  lemma {:induction false} SortSorts(ks: seq<string>, less: (string, string) -> bool)
    requires StrictTotalOrder(less) && Distinct(ks)
    ensures Descending(SortDescending(ks, less), less)
  {
    if ks != [] {
      SortSorts(ks[1..], less);
      assert ks[0] !in ks[1..];
      assert ks[0] !in multiset(SortDescending(ks[1..], less));
      InsertDescending(ks[0], SortDescending(ks[1..], less), less);
    }
  }

  /** Two strictly descending lists of the same names are equal. */
  lemma {:induction false} DescendingUnique(a: seq<string>, b: seq<string>, less: (string, string) -> bool)
    requires StrictTotalOrder(less) && Descending(a, less) && Descending(b, less)
    requires forall x :: x in a <==> x in b
    ensures a == b
  {
    if a != [] {
      assert b != [] by { assert a[0] in b; }
      assert a[0] == b[0] by {
        assert b[0] in a && a[0] in b;
      }
      forall x ensures x in a[1..] <==> x in b[1..] {
        if x in a[1..] {
          var i :| 0 <= i < |a[1..]| && a[1..][i] == x;
          assert less(a[i + 1], a[0]);
          assert x in b;
          var j :| 0 <= j < |b| && b[j] == x;
          assert j != 0;
          assert b[1..][j - 1] == x;
        }
        if x in b[1..] {
          var j :| 0 <= j < |b[1..]| && b[1..][j] == x;
          assert less(b[j + 1], b[0]);
          assert x in a;
          var i :| 0 <= i < |a| && a[i] == x;
          assert i != 0;
          assert a[1..][i - 1] == x;
        }
      }
      DescendingUnique(a[1..], b[1..], less);
      assert a == [a[0]] + a[1..] && b == [b[0]] + b[1..];
    } else if b != [] {
      HeadIn(b);
      assert false;
    }
  }

  /** The sorted order does not depend on the order in which the grouping
      dictionary enumerates its keys. */
  lemma SortIgnoresEntryOrder(ks1: seq<string>, ks2: seq<string>, less: (string, string) -> bool)
    requires StrictTotalOrder(less) && Distinct(ks1) && Distinct(ks2)
    requires forall x :: x in ks1 <==> x in ks2
    ensures SortDescending(ks1, less) == SortDescending(ks2, less)
  {
    SortSorts(ks1, less);
    SortSorts(ks2, less);
    var s1, s2 := SortDescending(ks1, less), SortDescending(ks2, less);
    forall x ensures x in s1 <==> x in s2 {
      assert x in s1 <==> x in multiset(s1);
      assert x in s2 <==> x in multiset(s2);
      assert x in ks1 <==> x in multiset(ks1);
      assert x in ks2 <==> x in multiset(ks2);
    }
    DescendingUnique(s1, s2, less);
  }

  // ---------------------------------------------------------------------
  // Flattening lemmas

  /** The language groups of `ks`, flattened, hold the voices of those languages. */
  lemma {:induction false} FlattenMultiset(ks: seq<string>, sys: seq<Voice>)
    requires Distinct(ks) && forall k :: k in ks ==> k in Languages(sys)
    ensures multiset(Flatten(ks, GroupsOf(sys))) == multiset(InLanguages(sys, ks))
  {
    if ks != [] {
      var g := GroupsOf(sys);
      assert ks[0] !in ks[1..];
      assert g[ks[0]] == OfLanguage(sys, ks[0]);
      FlattenMultiset(ks[1..], sys);
      InLanguagesCons(sys, ks[0], ks[1..]);
      calc {
        multiset(Flatten(ks, g));
        multiset(g[ks[0]] + Flatten(ks[1..], g));
        multiset(OfLanguage(sys, ks[0])) + multiset(InLanguages(sys, ks[1..]));
        multiset(InLanguages(sys, [ks[0]] + ks[1..]));
        { assert [ks[0]] + ks[1..] == ks; }
        multiset(InLanguages(sys, ks));
      }
    } else {
      InLanguagesNone(sys);
    }
  }

  /** Every flattened voice has one of the languages of `ks`. */
  lemma {:induction false} FlattenLanguages(ks: seq<string>, sys: seq<Voice>)
    requires forall k :: k in ks ==> k in Languages(sys)
    ensures forall v :: v in Flatten(ks, GroupsOf(sys)) ==> v.languageName in ks
  {
    if ks != [] {
      FlattenLanguages(ks[1..], sys);
    }
  }

  /** Within one language the flattened voices are that language's voices, in order. */
  lemma {:induction false} FlattenOfLanguage(ks: seq<string>, sys: seq<Voice>, lang: string)
    requires Distinct(ks) && forall k :: k in ks ==> k in Languages(sys)
    ensures OfLanguage(Flatten(ks, GroupsOf(sys)), lang) == if lang in ks then OfLanguage(sys, lang) else []
  {
    if ks != [] {
      var g := GroupsOf(sys);
      assert ks[0] !in ks[1..];
      FlattenOfLanguage(ks[1..], sys, lang);
      OfLanguageConcat(g[ks[0]], Flatten(ks[1..], g), lang);
      OfLanguageTwice(sys, ks[0], lang);
    }
  }

  /** Language names never go up along the list. */
  ghost predicate GroupedDescending(s: seq<Voice>, less: (string, string) -> bool) {
    forall i, j :: 0 <= i < j < |s| ==>
      s[i].languageName == s[j].languageName || less(s[j].languageName, s[i].languageName)
  }

  /** The voices of each language stand together. */
  ghost predicate ContiguousLanguages(s: seq<Voice>) {
    forall i, m, j :: 0 <= i < m < j < |s| && s[i].languageName == s[j].languageName ==>
      s[m].languageName == s[i].languageName
  }

  lemma {:induction false} FlattenDescending(ks: seq<string>, sys: seq<Voice>, less: (string, string) -> bool)
    requires StrictTotalOrder(less) && Descending(ks, less)
    requires forall k :: k in ks ==> k in Languages(sys)
    ensures GroupedDescending(Flatten(ks, GroupsOf(sys)), less)
  {
    if ks != [] {
      var g := GroupsOf(sys);
      var head := g[ks[0]];
      var rest := Flatten(ks[1..], g);
      assert Descending(ks[1..], less);
      FlattenDescending(ks[1..], sys, less);
      FlattenLanguages(ks[1..], sys);
      var s := head + rest;
      forall i, j | 0 <= i < j < |s|
        ensures s[i].languageName == s[j].languageName || less(s[j].languageName, s[i].languageName)
      {
        if j < |head| {
          assert s[i] in head && s[j] in head;
        } else if i < |head| {
          assert s[i] in head;
          assert s[j] == rest[j - |head|];
          var m :| 0 <= m < |ks[1..]| && ks[1..][m] == s[j].languageName;
          assert less(ks[m + 1], ks[0]);
        } else {
          assert s[i] == rest[i - |head|] && s[j] == rest[j - |head|];
        }
      }
    }
  }

  /** Under a strict order, language names that never go up stand in groups. */
  lemma DescendingIsContiguous(s: seq<Voice>, less: (string, string) -> bool)
    requires StrictTotalOrder(less) && GroupedDescending(s, less)
    ensures ContiguousLanguages(s)
  {
  }

  // ---------------------------------------------------------------------
  // System order

  /** The keys of the reordering are the languages of `sys`, distinct. */
  lemma SortedKeys(sys: seq<Voice>, less: (string, string) -> bool)
    ensures var keys := SortDescending(Languages(sys), less);
      Distinct(keys) && forall k :: k in keys <==> k in Languages(sys)
  {
    var keys := SortDescending(Languages(sys), less);
    SortDistinct(Languages(sys), less);
    assert forall k :: k in keys <==> k in multiset(keys);
  }

  /** The system order is a permutation of the system voices. */
  lemma SystemOrderPermutation(sys: seq<Voice>, less: (string, string) -> bool)
    ensures multiset(SystemOrder(sys, less)) == multiset(sys)
  {
    var keys := SortDescending(Languages(sys), less);
    SortedKeys(sys, less);
    FlattenMultiset(keys, sys);
    LanguagesMembers(sys);
    InLanguagesAll(sys, keys);
  }

  /** Every voice of the system order is a system voice of the input. */
  lemma SystemOrderMembers(vs: seq<Voice>, less: (string, string) -> bool)
    ensures forall v :: v in SystemOrder(System(vs), less) ==> v in vs && v.isSystemVoice
  {
    SystemOrderPermutation(System(vs), less);
    forall v | v in SystemOrder(System(vs), less) ensures v in vs && v.isSystemVoice {
      assert v in multiset(SystemOrder(System(vs), less));
    }
  }

  /** The system voices of the listing are exactly the system order. */
  lemma SystemPart(vs: seq<Voice>, less: (string, string) -> bool)
    ensures System(VoiceOrder(vs, less)) == SystemOrder(System(vs), less)
    ensures Custom(VoiceOrder(vs, less)) == Custom(vs)
  {
    SystemOrderMembers(vs, less);
    SystemConcat(Custom(vs), SystemOrder(System(vs), less));
    CustomConcat(Custom(vs), SystemOrder(System(vs), less));
    AllCustom(Custom(vs));
    AllSystem(SystemOrder(System(vs), less));
  }

  // ---------------------------------------------------------------------
  // Properties of the voice listing

  /** Every voice is listed exactly once: the listing is a permutation of the input. */
  lemma VoiceOrderPermutation(vs: seq<Voice>, less: (string, string) -> bool)
    ensures multiset(VoiceOrder(vs, less)) == multiset(vs)
  {
    SystemOrderPermutation(System(vs), less);
    PartitionMultiset(vs);
  }

  /** The listing is the custom voices, then only system voices: position
      `i` holds a system voice exactly when it is past the custom voices, so
      no system voice is listed before a custom voice. */
  lemma CustomBeforeSystem(vs: seq<Voice>, less: (string, string) -> bool)
    ensures var o := VoiceOrder(vs, less);
      forall i :: 0 <= i < |o| ==> (o[i].isSystemVoice <==> i >= |Custom(vs)|)
    ensures var o := VoiceOrder(vs, less);
      forall i, j :: 0 <= i < |o| && 0 <= j < |o| && !o[i].isSystemVoice && o[j].isSystemVoice ==> i < j
  {
    var o := VoiceOrder(vs, less);
    var c := Custom(vs);
    SystemOrderMembers(vs, less);
    forall i | 0 <= i < |o| ensures o[i].isSystemVoice <==> i >= |c| {
      if i < |c| {
        assert o[i] == c[i] && c[i] in c;
      } else {
        assert o[i] in SystemOrder(System(vs), less);
      }
    }
  }

  /** Custom voices are listed in their original relative order. */
  lemma CustomOrderKept(vs: seq<Voice>, less: (string, string) -> bool)
    ensures Custom(VoiceOrder(vs, less)) == Custom(vs)
  {
    SystemPart(vs, less);
  }

  /** Within one language, system voices are listed in their original relative order. */
  lemma LanguageOrderKept(vs: seq<Voice>, less: (string, string) -> bool, lang: string)
    ensures OfLanguage(System(VoiceOrder(vs, less)), lang) == OfLanguage(System(vs), lang)
  {
    var sys := System(vs);
    var keys := SortDescending(Languages(sys), less);
    SystemPart(vs, less);
    SortedKeys(sys, less);
    FlattenOfLanguage(keys, sys, lang);
    if lang !in keys {
      LanguagesMembers(sys);
      OfLanguageAbsent(sys, lang);
    }
  }

  /** System voices are listed in contiguous language groups, in descending
      collation order of their language names. */
  lemma LanguagesDescending(vs: seq<Voice>, less: (string, string) -> bool)
    requires StrictTotalOrder(less)
    ensures GroupedDescending(System(VoiceOrder(vs, less)), less)
    ensures ContiguousLanguages(System(VoiceOrder(vs, less)))
  {
    var sys := System(vs);
    var keys := SortDescending(Languages(sys), less);
    SystemPart(vs, less);
    SortedKeys(sys, less);
    SortSorts(Languages(sys), less);
    FlattenDescending(keys, sys, less);
    DescendingIsContiguous(System(VoiceOrder(vs, less)), less);
  }

  /** The listing's display options are projections of a permutation of the
      input voices: every voice appears exactly once. */
  lemma ListingIsPermutation(vs: seq<Voice>, less: (string, string) -> bool)
    ensures multiset(UnformatAll(FormatAll(VoiceOrder(vs, less)))) == multiset(vs)
  {
    var o := VoiceOrder(vs, less);
    assert UnformatAll(FormatAll(o)) == o;
    VoiceOrderPermutation(vs, less);
  }

  // ---------------------------------------------------------------------
  // Properties of the default voice

  /** With a custom voice present, the default is the first custom voice of the input. */
  lemma SomeVoicePrefersCustom(vs: seq<Voice>, less: (string, string) -> bool)
    requires Custom(vs) != []
    ensures PickVoice(FormatAll(VoiceOrder(vs, less))) == Some(Format(Custom(vs)[0]))
  {
    var o := VoiceOrder(vs, less);
    assert o[0] == Custom(vs)[0] && Custom(vs)[0] in Custom(vs);
    assert !FormatAll(o)[0].isSystemVoice;
  }

  /** Without custom voices every voice is a system voice. */
  lemma NoCustomAllSystem(vs: seq<Voice>)
    requires Custom(vs) == []
    ensures forall w :: w in vs ==> w.isSystemVoice
  {
    PartitionMultiset(vs);
    assert multiset(Custom(vs)) == multiset{};
    forall w | w in vs ensures w.isSystemVoice {
      assert w in multiset(vs);
      assert w in multiset(System(vs));
    }
  }

  /** Without custom voices the listing is a reordering of system voices only. */
  lemma NoCustomOrder(vs: seq<Voice>, less: (string, string) -> bool)
    requires Custom(vs) == []
    ensures |VoiceOrder(vs, less)| == |vs|
    ensures forall i :: 0 <= i < |VoiceOrder(vs, less)| ==> VoiceOrder(vs, less)[i].isSystemVoice
  {
    var o := VoiceOrder(vs, less);
    VoiceOrderPermutation(vs, less);
    assert |o| == |vs| by { assert |multiset(o)| == |multiset(vs)|; }
    SystemOrderMembers(vs, less);
    assert o == SystemOrder(System(vs), less);
    forall i | 0 <= i < |o| ensures o[i].isSystemVoice {
      assert o[i] in SystemOrder(System(vs), less);
    }
  }

  /** Without custom voices the listing is grouped by descending language name. */
  lemma NoCustomGrouped(vs: seq<Voice>, less: (string, string) -> bool)
    requires StrictTotalOrder(less) && Custom(vs) == []
    ensures GroupedDescending(VoiceOrder(vs, less), less)
  {
    NoCustomOrder(vs, less);
    AllSystem(VoiceOrder(vs, less));
    LanguagesDescending(vs, less);
  }

  /** Without custom voices the head of the listing is an input voice whose
      language no other voice's language collates after. */
  lemma NoCustomHead(vs: seq<Voice>, less: (string, string) -> bool)
    requires StrictTotalOrder(less) && Custom(vs) == [] && vs != []
    ensures |VoiceOrder(vs, less)| > 0 && VoiceOrder(vs, less)[0] in vs
    ensures forall w :: w in vs ==>
      w.languageName == VoiceOrder(vs, less)[0].languageName || less(w.languageName, VoiceOrder(vs, less)[0].languageName)
  {
    var o := VoiceOrder(vs, less);
    NoCustomOrder(vs, less);
    NoCustomGrouped(vs, less);
    VoiceOrderPermutation(vs, less);
    assert o[0] in vs by { assert o[0] in multiset(o); }
    var top := o[0].languageName;
    forall w | w in vs
      ensures w.languageName == top || less(w.languageName, top)
    {
      assert w in multiset(o);
      var j :| 0 <= j < |o| && o[j] == w;
      if j > 0 {
        assert o[0].languageName == o[j].languageName || less(o[j].languageName, o[0].languageName);
      }
    }
  }

  /** Without custom voices the default is a voice of the language that
      collates last, the first of that language in the input. */
  lemma SomeVoiceFallsBack(vs: seq<Voice>, less: (string, string) -> bool)
    requires StrictTotalOrder(less) && Custom(vs) == [] && vs != []
    ensures exists v ::
      && v in vs
      && PickVoice(FormatAll(VoiceOrder(vs, less))) == Some(Format(v))
      && |OfLanguage(vs, v.languageName)| > 0 && OfLanguage(vs, v.languageName)[0] == v
      && forall w :: w in vs ==> w.languageName == v.languageName || less(w.languageName, v.languageName)
  {
    var o := VoiceOrder(vs, less);
    NoCustomOrder(vs, less);
    NoCustomHead(vs, less);
    var v := o[0];
    NoCustomAllSystem(vs);
    AllSystem(vs);
    AllSystem(o);
    LanguageOrderKept(vs, less, v.languageName);
    var f := FormatAll(o);
    assert forall i :: 0 <= i < |f| ==> f[i].isSystemVoice by {
      assert forall i :: 0 <= i < |f| ==> f[i] == Format(o[i]);
    }
    assert PickVoice(f) == Some(Format(v));
    assert o == [v] + o[1..];
    assert OfLanguage(o, v.languageName)[0] == v;
  }

  // ---------------------------------------------------------------------
  // A worked example

  lemma ExampleCustom(c1: Voice, c2: Voice, e1: Voice, e2: Voice, z1: Voice)
    requires !c1.isSystemVoice && !c2.isSystemVoice
    requires e1.isSystemVoice && e2.isSystemVoice && z1.isSystemVoice
    ensures Custom([e1, c1, z1, c2, e2]) == [c1, c2]
  {
    assert [e2][1..] == [];
    assert Custom([e2]) == [];
    assert [c2, e2][1..] == [e2];
    assert Custom([c2, e2]) == [c2];
    assert [z1, c2, e2][1..] == [c2, e2];
    assert Custom([z1, c2, e2]) == [c2];
    assert [c1, z1, c2, e2][1..] == [z1, c2, e2];
    assert Custom([c1, z1, c2, e2]) == [c1, c2];
    assert [e1, c1, z1, c2, e2][1..] == [c1, z1, c2, e2];
  }

  lemma ExampleSystem(c1: Voice, c2: Voice, e1: Voice, e2: Voice, z1: Voice)
    requires !c1.isSystemVoice && !c2.isSystemVoice
    requires e1.isSystemVoice && e2.isSystemVoice && z1.isSystemVoice
    ensures System([e1, c1, z1, c2, e2]) == [e1, z1, e2]
  {
    assert [e2][1..] == [];
    assert System([e2]) == [e2];
    assert [c2, e2][1..] == [e2];
    assert System([c2, e2]) == [e2];
    assert [z1, c2, e2][1..] == [c2, e2];
    assert System([z1, c2, e2]) == [z1, e2];
    assert [c1, z1, c2, e2][1..] == [z1, c2, e2];
    assert System([c1, z1, c2, e2]) == [z1, e2];
    assert [e1, c1, z1, c2, e2][1..] == [c1, z1, c2, e2];
  }

  lemma ExampleGroups(e1: Voice, e2: Voice, z1: Voice)
    requires e1.languageName == "English" && e2.languageName == "English" && z1.languageName == "Chinese"
    ensures Languages([e1, z1, e2]) == ["English", "Chinese"]
    ensures OfLanguage([e1, z1, e2], "English") == [e1, e2]
    ensures OfLanguage([e1, z1, e2], "Chinese") == [z1]
  {
    var sys := [e1, z1, e2];
    assert "English" != "Chinese" by { assert "English"[0] != "Chinese"[0]; }
    assert Languages(sys[..1]) == ["English"] by { assert sys[..1][..0] == []; }
    assert sys[..2][..1] == sys[..1];
    assert sys[..3][..2] == sys[..2] && sys[..3] == sys;
    assert [e2][1..] == [];
    assert OfLanguage([e2], "English") == [e2] && OfLanguage([e2], "Chinese") == [];
    assert [z1, e2][1..] == [e2];
    assert OfLanguage([z1, e2], "English") == [e2] && OfLanguage([z1, e2], "Chinese") == [z1];
    assert sys[1..] == [z1, e2];
  }

  lemma ExampleSort(less: (string, string) -> bool)
    requires less("Chinese", "English")
    ensures SortDescending(["English", "Chinese"], less) == ["English", "Chinese"]
  {
    assert ["English", "Chinese"][1..] == ["Chinese"] && ["Chinese"][1..] == [];
  }

  lemma ExampleSystemOrder(less: (string, string) -> bool, e1: Voice, e2: Voice, z1: Voice)
    requires less("Chinese", "English")
    requires e1.languageName == "English" && e2.languageName == "English" && z1.languageName == "Chinese"
    ensures SystemOrder([e1, z1, e2], less) == [e1, e2, z1]
  {
    ExampleGroups(e1, e2, z1);
    ExampleSort(less);
    var g := GroupsOf([e1, z1, e2]);
    assert g["English"] == [e1, e2] && g["Chinese"] == [z1];
    var ks := ["English", "Chinese"];
    assert ks[1..] == ["Chinese"] && ["Chinese"][1..] == [];
    assert Flatten(["Chinese"], g) == [z1];
    assert Flatten(ks, g) == [e1, e2] + [z1];
  }

  /** Custom voices C1, C2; system voices E1, E2 in English and Z1 in Chinese,
      listed as E1, C1, Z1, C2, E2. Where Chinese collates before English the
      listing is C1, C2, E1, E2, Z1: English is the larger name, so its group
      comes first. */
  lemma ListingExample(less: (string, string) -> bool, c1: Voice, c2: Voice, e1: Voice, e2: Voice, z1: Voice)
    requires less("Chinese", "English")
    requires !c1.isSystemVoice && !c2.isSystemVoice
    requires e1.isSystemVoice && e2.isSystemVoice && z1.isSystemVoice
    requires e1.languageName == "English" && e2.languageName == "English" && z1.languageName == "Chinese"
    ensures VoiceOrder([e1, c1, z1, c2, e2], less) == [c1, c2, e1, e2, z1]
  {
    ExampleCustom(c1, c2, e1, e2, z1);
    ExampleSystem(c1, c2, e1, e2, z1);
    ExampleSystemOrder(less, e1, e2, z1);
  }
}
