/** The registry of languages, keyed by name, and the name of the current one. */
module LanguageManagers {
  import opened Wrappers
  import opened LanguageRecords
  import opened Languages

  class LanguageManager {
    var languages: map<string, Language>
    /** The current language's name; it need not be registered. */
    var name: string

    /** An empty registry with no current language. */
    constructor ()
      ensures languages == map[] && name == ""
    {
      languages := map[];
      name := "";
    }

    /** languages.Add(name, new Language(iso, name)): a name already registered throws. */
    method Register(iso: string, name: string) returns (r: Result<()>)
      modifies this`languages
      ensures name in old(languages) ==> r == Err(DuplicateName(name)) && languages == old(languages)
      ensures name !in old(languages) ==>
        r == Ok(()) && languages.Keys == old(languages).Keys + {name}
        && fresh(languages[name]) && languages[name].iso == iso && languages[name].name == name
        && !languages[name].loaded && languages[name].romanizationIndex == -1
        && languages[name].transcriptions == [] && languages[name].romanizations == []
        && languages[name].decompositions == []
        && forall x :: x in old(languages) ==> languages[x] == old(languages)[x]
    {
      if name in languages {
        return Err(DuplicateName(name));
      }
      var language := new Language(iso, name);
      languages := languages[name := language];
      return Ok(());
    }

    /** The CurrentLanguage property: the language registered under the current name. */
    function CurrentLanguage(): (r: Result<Language>)
      reads this
      ensures r.Ok? <==> name in languages
      ensures r.Ok? ==> r.value == languages[name]
      ensures r.Err? ==> r.error == KeyNotFound(name)
    {
      if name in languages then Ok(languages[name]) else Err(KeyNotFound(name))
    }

    /**
     * Makes `newName` current, then loads that language's rule data as
     * Language.Load does; the name is set even when no language has it, and
     * the load then throws.
     */
    method Load(newName: string, data: LanguageRecord) returns (r: Result<()>)
      modifies this`name, if newName in languages then {languages[newName]} else {}
      ensures name == newName && languages == old(languages)
      ensures newName in languages ==>
        languages[newName].romanizationIndex == old(languages[newName].romanizationIndex)
        && languages[newName].loaded == old(languages[newName].loaded)
      ensures newName !in languages ==> r == Err(KeyNotFound(newName))
      ensures newName in languages && old(languages[newName].loaded) ==>
        var l := languages[newName];
        r == Ok(()) && l.transcriptions == old(l.transcriptions)
        && l.romanizations == old(l.romanizations) && l.decompositions == old(l.decompositions)
      ensures newName in languages && !old(languages[newName].loaded) ==>
        var l := languages[newName];
        |l.transcriptions| == |old(l.transcriptions)| + |data.transcriptions|
        && l.transcriptions[..|old(l.transcriptions)|] == old(l.transcriptions)
        && RulesModel(l.transcriptions[|old(l.transcriptions)|..], data.transcriptions)
      ensures newName in languages && !old(languages[newName].loaded) ==>
        var l := languages[newName];
        |l.romanizations| == |old(l.romanizations)| + |data.romanizations|
        && l.romanizations[..|old(l.romanizations)|] == old(l.romanizations)
        && forall k :: 0 <= k < |data.romanizations| ==>
             l.romanizations[|old(l.romanizations)| + k].name == data.romanizations[k].name
             && RulesModel(l.romanizations[|old(l.romanizations)| + k].transliterations, data.romanizations[k].rules)
      ensures newName in languages && !old(languages[newName].loaded) ==>
        var l := languages[newName];
        var n := LoadableCount(data.decompositions);
        |l.decompositions| == |old(l.decompositions)| + n
        && l.decompositions[..|old(l.decompositions)|] == old(l.decompositions)
        && (forall k :: 0 <= k < n ==> DecompositionModels(l.decompositions[|old(l.decompositions)| + k], data.decompositions[k]))
        && (r.Ok? <==> n == |data.decompositions|)
        && (r.Err? ==> r.error == DuplicateKey(FirstDuplicate(data.decompositions[n].prevFactors).value))
    {
      name := newName;
      var current := CurrentLanguage();
      if current.Err? {
        return Err(current.error);
      }
      r := current.value.Load(data);
    }

    /** The Languages property: every registered name exactly once, in no particular order. */
    method Languages() returns (keys: seq<string>)
      ensures |keys| == Length()
      ensures forall x :: x in keys <==> x in languages
      ensures forall i, j :: 0 <= i < j < |keys| ==> keys[i] != keys[j]
    {
      keys := [];
      var remaining := languages.Keys;
      ghost var listed: set<string> := {};
      while remaining != {}
        invariant remaining !! listed && remaining + listed == languages.Keys
        invariant forall x :: x in keys <==> x in listed
        invariant |keys| == |listed|
        invariant forall i, j :: 0 <= i < j < |keys| ==> keys[i] != keys[j]
        decreases |remaining|
      {
        var key :| key in remaining;
        keys := keys + [key];
        listed := listed + {key};
        remaining := remaining - {key};
      }
      assert |languages.Keys| == |listed| + |remaining|;
    }

    /** The Length property: the number of registered languages. */
    function Length(): (n: nat)
      reads this
      ensures n == |languages.Keys|
    {
      |languages|
    }

    /** The Name setter: changes the current name and nothing else. */
    method SetName(value: string)
      modifies this`name
      ensures name == value
    {
      name := value;
    }
  }

  /** Loading a name that is not registered fails, whatever the rule data. */
  lemma UnknownNameHasNoLanguage(m: LanguageManager)
    requires m.name !in m.languages
    ensures m.CurrentLanguage() == Err(KeyNotFound(m.name))
  {
  }
}
