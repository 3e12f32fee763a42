/** The resumable generator of file names (CfxFilenameGenerator): entries of a list, combinations of values in each
    entry, wildcard matches of each combination. */
module FnameGen {
  import opened Wrappers
  import opened FnameOdometer
  import opened FnameSubst
  import opened FnameCfx
  import opened FnameSplit

  /** The matches of the combinations from place k on. */
  ghost function NamesFrom(base: string, segs: seq<Seg>, k: nat, glob: string -> seq<string>): seq<string>
    requires Spans(segs, 0, |base|)
    decreases Product(Radix(segs)) - k
  {
    if k >= Product(Radix(segs)) then [] else glob(Output(base, segs, k)) + NamesFrom(base, segs, k + 1, glob)
  }

  ghost function EntryNames(entry: string, getenv: string -> Option<string>, glob: string -> seq<string>): seq<string> {
    SegsFit(entry, 0, getenv);
    NamesFrom(entry, SegsFrom(entry, 0, getenv), 0, glob)
  }

  /** The names of the entries from number i on. */
  ghost function EntriesFrom(fs: seq<string>, i: nat, getenv: string -> Option<string>,
      glob: string -> seq<string>): seq<string>
    requires i <= |fs|
    decreases |fs| - i
  {
    if i == |fs| then [] else EntryNames(fs[i], getenv, glob) + EntriesFrom(fs, i + 1, getenv, glob)
  }

  /** No file has an empty name. */
  ghost predicate ProperNames(glob: string -> seq<string>) {
    forall p: string :: forall i :: 0 <= i < |glob(p)| ==> glob(p)[i] != ""
  }

  class WildcardFilenameGenerator {
    var matches: seq<string>

    constructor (pattern: string, glob: string -> seq<string>)
      ensures matches == glob(pattern)
    {
      matches := glob(pattern);
    }

    /** VGetNextName, without user break: an empty name says that there are no more. */
    method VGetNextName() returns (rv: bool, dest: string)
      modifies this
      ensures dest == (if old(matches) == [] then "" else old(matches)[0]) && rv == (dest != "")
      ensures matches == if old(matches) == [] then [] else old(matches)[1..]
    {
      dest := "";
      if matches != [] {
        dest := matches[0];
        matches := matches[1..];
      }
      rv := dest != "";
    }
  }

  class CfxFilenameGenerator {
    var wcGen: WildcardFilenameGenerator?
    var ssg: StrSubstituterGenerator?
    const splitLine: DicedOnDelimString
    var entrySuffix: int
    const getenv: string -> Option<string>
    const glob: string -> seq<string>
    /** The number of entries begun. */
    ghost var k: nat

    ghost predicate MatchesOk()
      reads this`wcGen, wcGen
    {
      wcGen != null ==> forall i :: 0 <= i < |wcGen.matches| ==> wcGen.matches[i] != ""
    }

    ghost predicate CombinationsOk()
      reads this`ssg, ssg
    {
      ssg != null ==> ssg.Valid()
    }

    ghost predicate ListOk()
      reads this`k, this`entrySuffix, splitLine.heapString
    {
      && splitLine.Valid() && ProperNames(glob) && k <= |splitLine.fields|
      && entrySuffix == (if k == 0 then -1 else Offset(splitLine.fields, k - 1))
    }

    ghost predicate Valid()
      reads this, wcGen, ssg, splitLine.heapString
    {
      MatchesOk() && CombinationsOk() && ListOk()
    }

    /** The matches left over of the current combination. */
    ghost function OfCombination(): seq<string>
      reads this`wcGen, wcGen
    {
      if wcGen == null then [] else wcGen.matches
    }

    /** The names of the combinations left of the current entry. */
    ghost function OfEntry(): seq<string>
      requires CombinationsOk()
      reads this`ssg, ssg
    {
      if ssg == null then [] else NamesFrom(ssg.baseString, ssg.segs, ssg.calls, glob)
    }

    ghost function OfList(): seq<string>
      requires k <= |splitLine.fields|
      reads this`k
    {
      EntriesFrom(splitLine.fields, k, getenv, glob)
    }

    /** The names still to come. */
    ghost function Rest(): seq<string>
      requires Valid()
      reads this, wcGen, ssg, splitLine.heapString
    {
      OfCombination() + OfEntry() + OfList()
    }

    /** All names, in order: for every entry, for every combination, every match. */
    ghost function AllNames(): seq<string> {
      EntriesFrom(splitLine.fields, 0, getenv, glob)
    }

    constructor (macroText: string, getenv: string -> Option<string>, glob: string -> seq<string>)
      requires ProperNames(glob) && forall i :: 0 <= i < |macroText| ==> macroText[i] != NUL
      ensures Valid() && Rest() == AllNames() && splitLine.fields == Fields(macroText, [ENV_SEP]) && wcGen == null
      ensures ssg == null
      ensures this.getenv == getenv && this.glob == glob && fresh(splitLine) && fresh(splitLine.heapString)
    {
      var line := new DicedOnDelimString(macroText, [ENV_SEP]);
      splitLine := line;
      wcGen, ssg, entrySuffix, k := null, null, -1, 0;
      this.getenv, this.glob := getenv, glob;
    }

    /** NEXT_WILDCARD_MATCH: the next match of the combination, or none. */
    method NextWildcardMatch() returns (rv: bool, dest: string)
      requires MatchesOk() && wcGen != null
      modifies this`wcGen, wcGen
      ensures MatchesOk()
      ensures rv ==> old(OfCombination()) == [dest] + OfCombination() && wcGen == old(wcGen)
      ensures !rv ==> dest == "" && wcGen == null && old(OfCombination()) == []
    {
      rv, dest := wcGen.VGetNextName();
      if !rv {
        wcGen := null;
      }
    }

    lemma NamesUnfold(base: string, segs: seq<Seg>, n: nat)
      requires Spans(segs, 0, |base|)
      ensures NamesFrom(base, segs, n, glob) ==
        if n >= Product(Radix(segs)) then [] else glob(Output(base, segs, n)) + NamesFrom(base, segs, n + 1, glob)
    {}

    lemma AppendedToNothing(base: string, segs: seq<Seg>, n: nat)
      requires Spans(segs, 0, |base|) && n < Product(Radix(segs))
      ensures "" + Output(base, segs, n) == Output(base, segs, n)
    {}

    /** NEXT_SSG_COMBINATION: the next combination of the entry, with its matches, or none. */
    method NextSsgCombination() returns (rv: bool)
      requires CombinationsOk() && ssg != null && wcGen == null && ProperNames(glob)
      modifies this`wcGen, this`ssg, ssg
      ensures MatchesOk() && CombinationsOk()
      ensures rv ==> fresh(wcGen) && ssg == old(ssg) && ssg.calls == old(ssg.calls) + 1 && ssg.calls <= ssg.Total()
      ensures rv ==> ssg.Total() == old(ssg.Total()) && old(OfEntry()) == OfCombination() + OfEntry()
      ensures !rv ==> ssg == null && wcGen == null && old(OfEntry()) == []
    {
      NamesUnfold(ssg.baseString, ssg.segs, ssg.calls);
      var dest;
      rv, dest := ssg.GetNextString("");
      if rv {
        AppendedToNothing(old(ssg.baseString), old(ssg.segs), old(ssg.calls));
        wcGen := new WildcardFilenameGenerator(dest, glob);
      } else {
        ssg := null;
      }
    }

    /** The next entry, with its combinations, or none; behind the last one the list starts over. */
    method NextEntry() returns (rv: bool)
      requires ListOk() && ssg == null && wcGen == null
      modifies this`ssg, this`entrySuffix, this`k
      ensures ListOk() && CombinationsOk() && rv == (old(k) < |splitLine.fields|)
      ensures rv ==> fresh(ssg) && k == old(k) + 1 && old(OfList()) == OfEntry() + OfList()
      ensures !rv ==> ssg == null && k == 0 && old(OfList()) == []
    {
      entrySuffix := splitLine.GetNext(entrySuffix, k);
      rv := entrySuffix >= 0;
      if !rv {
        k := 0;
        return;
      }
      var entry := splitLine.At(entrySuffix, k);
      var gen := new StrSubstituterGenerator();
      var status := CfxToSsg(entry, gen, getenv);
      ssg := gen;
      k := k + 1;
    }

    lemma Dequeue(was: seq<string>, dest: string, now: seq<string>, b: seq<string>, c: seq<string>)
      requires was == [dest] + now
      ensures (was + b + c) != [] && (was + b + c)[0] == dest && (was + b + c)[1..] == now + b + c
    {
      assert was + b + c == [dest] + (now + b + c);
    }

    /** How many combinations the current entry still has. */
    ghost function CombinationsLeft(): nat
      requires CombinationsOk()
      reads this`ssg, ssg
    {
      if ssg == null || ssg.calls >= ssg.Total() then 0 else ssg.Total() - ssg.calls
    }

    lemma Regrouped(a: seq<string>, b: seq<string>, c: seq<string>)
      ensures [] + (a + b) + c == a + b + c && [] + [] + (b + c) == [] + b + c
    {}

    ghost predicate Nearer(entry: bool, left: nat, entryWas: bool, leftWas: nat) {
      entryWas && (entry ==> left < leftWas)
    }

    /** With no match left of the combination: the next combination, or else the next entry, or else the end. */
    method Refill() returns (more: bool)
      requires Valid() && wcGen == null
      modifies this`wcGen, this`ssg, this`entrySuffix, this`k, ssg
      ensures Valid() && (wcGen == null || wcGen == old(wcGen) || fresh(wcGen))
      ensures ssg == null || ssg == old(ssg) || fresh(ssg)
      ensures more ==> Rest() == old(Rest())
      ensures more ==>
        k > old(k)
        || (k == old(k) && Nearer(ssg != null, CombinationsLeft(), old(ssg) != null, old(CombinationsLeft())))
      ensures !more ==> old(Rest()) == [] && Rest() == AllNames()
    {
      more := true;
      if ssg != null {
        var got := NextSsgCombination();
        Regrouped(OfCombination(), OfEntry(), OfList());
      } else {
        more := NextEntry();
        if more {
          Regrouped([], OfEntry(), OfList());
        }
      }
    }

    /** The next match of the combination, if there is a combination with a match. */
    method Match() returns (rv: bool, dest: string)
      requires Valid()
      modifies this`wcGen, wcGen
      ensures Valid() && (wcGen == null || wcGen == old(wcGen))
      ensures rv ==> old(Rest()) != [] && dest == old(Rest())[0] && Rest() == old(Rest())[1..]
      ensures !rv ==> wcGen == null && Rest() == old(Rest()) && dest == ""
      ensures CombinationsLeft() == old(CombinationsLeft())
    {
      rv, dest := false, "";
      if wcGen != null {
        ghost var was := OfCombination();
        rv, dest := NextWildcardMatch();
        if rv {
          Dequeue(was, dest, OfCombination(), OfEntry(), OfList());
        }
      }
    }

    /** One round: a name, the end of the list, or a refill. */
    method MatchOrRefill() returns (done: bool, rv: bool, dest: string)
      requires Valid()
      modifies this`wcGen, this`ssg, this`entrySuffix, this`k, wcGen, ssg
      ensures Valid() && (wcGen == null || wcGen == old(wcGen) || fresh(wcGen))
      ensures ssg == null || ssg == old(ssg) || fresh(ssg)
      ensures !done ==> Rest() == old(Rest())
      ensures !done ==>
        k > old(k)
        || (k == old(k) && Nearer(ssg != null, CombinationsLeft(), old(ssg) != null, old(CombinationsLeft())))
      ensures done && rv ==> old(Rest()) != [] && dest == old(Rest())[0] && Rest() == old(Rest())[1..]
      ensures done && !rv ==> old(Rest()) == [] && dest == "" && Rest() == AllNames()
    {
      rv, dest := Match();
      done := rv;
      if !rv {
        var more := Refill();
        done := !more;
      }
    }

    /** VGetNextName, without user break: the next name of the list, or the information that there is none; after that
        the list starts over. */
    method VGetNextName() returns (rv: bool, dest: string)
      requires Valid()
      modifies this`wcGen, this`ssg, this`entrySuffix, this`k, wcGen, ssg
      ensures Valid() && (wcGen == null || wcGen == old(wcGen) || fresh(wcGen))
      ensures ssg == null || ssg == old(ssg) || fresh(ssg)
      ensures rv ==> old(Rest()) != [] && dest == old(Rest())[0] && Rest() == old(Rest())[1..]
      ensures !rv ==> old(Rest()) == [] && dest == "" && Rest() == AllNames()
    {
      while true
        invariant Valid() && Rest() == old(Rest())
        invariant wcGen == null || wcGen == old(wcGen) || fresh(wcGen)
        invariant ssg == null || ssg == old(ssg) || fresh(ssg)
        decreases |splitLine.fields| - k, if ssg == null then 0 else 1, CombinationsLeft()
      {
        var done;
        done, rv, dest := MatchOrRefill();
        if done {
          return;
        }
      }
    }

    /** Asking until there are no more: the names come in order, each one once, and the list is ready to start over. */
    method ReadAll() returns (names: seq<string>)
      requires Valid()
      modifies this`wcGen, this`ssg, this`entrySuffix, this`k, wcGen, ssg
      ensures Valid() && (wcGen == null || wcGen == old(wcGen) || fresh(wcGen))
      ensures ssg == null || ssg == old(ssg) || fresh(ssg)
      ensures names == old(Rest()) && Rest() == AllNames()
    {
      names := [];
      while true
        invariant Valid() && (wcGen == null || wcGen == old(wcGen) || fresh(wcGen))
        invariant (ssg == null || ssg == old(ssg) || fresh(ssg)) && old(Rest()) == names + Rest()
        decreases |Rest()|
      {
        ghost var rest := Rest();
        var rv, dest := VGetNextName();
        Taken(old(Rest()), names, rest);
        if !rv {
          return;
        }
        names := names + [dest];
      }
    }

    lemma Taken(all: seq<string>, names: seq<string>, rest: seq<string>)
      requires all == names + rest
      ensures rest == [] ==> names == all
      ensures rest != [] ==> all == names + [rest[0]] + rest[1..]
    {}
  }
}
