/**
  The host registry: a static directory of known hosts, keyed by MAC
  address, joined with the last address each host reported to the cache.
*/
module Hosts {
  import opened Wrappers
  import opened MacAddress
  import opened AddressCache

  /** Static attributes of a configured host, passed through untouched. */
  type Attrs = map<string, string>

  /** A directory entry together with its key and its cached address (`None` for PHP `null`). */
  datatype HostInfo = HostInfo(attrs: Attrs, macAddress: string, ipAddress: Option<string>)

  datatype HostException = HostException(message: string)

  const HostNotFound: string := "Host not found!"

  /**
    `getFullHostInfo`: the exact key `macAddress` must be in the directory;
    the result carries its static attributes, the key itself and the
    address the cache holds for the key at `now`. The two named fields take
    the place of any static attributes of the same names.
  */
  function FullHostInfo(list: map<string, Attrs>, cache: Store, now: int, macAddress: string)
    : (r: Result<HostInfo, HostException>)
    ensures r.Failure? <==> macAddress !in list
    ensures r.Failure? ==> r.error == HostException(HostNotFound)
    ensures r.Success? ==> r.value.macAddress == macAddress
    ensures r.Success? ==> r.value.ipAddress == Get(cache, macAddress, now)
    ensures r.Success? ==> r.value.attrs.Keys == list[macAddress].Keys - {"macAddress", "ipAddress"}
    ensures r.Success? ==> forall a :: a in r.value.attrs ==> r.value.attrs[a] == list[macAddress][a]
  {
    if macAddress !in list then Failure(HostException(HostNotFound))
    else Success(HostInfo(list[macAddress] - {"macAddress", "ipAddress"}, macAddress, Get(cache, macAddress, now)))
  }

  /** The strings find compares with the keys, in order: the search itself, then its three rewrites. */
  function Candidates(search: string): (r: seq<string>)
    ensures |r| == 1 + |Joiners|
    ensures r[0] == search
    ensures forall i :: 0 <= i < |Joiners| ==> r[i + 1] == Rewrite(search, Joiners[i])
  {
    [search, Rewrite(search, Joiners[0]), Rewrite(search, Joiners[1]), Rewrite(search, Joiners[2])]
  }

  /** The position of the first candidate that is a key, if any. */
  function FirstKey(candidates: seq<string>, keys: set<string>): (r: Option<nat>)
    ensures r.Some? ==> r.value < |candidates| && candidates[r.value] in keys
    ensures r.Some? ==> forall j :: 0 <= j < r.value ==> candidates[j] !in keys
    ensures r.None? ==> forall j :: 0 <= j < |candidates| ==> candidates[j] !in keys
  {
    if candidates == [] then None
    else if candidates[0] in keys then Some(0)
    else
      match FirstKey(candidates[1..], keys)
      case None => None
      case Some(i) => Some(i + 1)
  }

  /**
    What `find` returns: the full host info of the first candidate that is
    exactly a key, or nothing (an empty result, not an exception).
  */
  function Resolve(list: map<string, Attrs>, cache: Store, now: int, search: string): (r: Option<HostInfo>)
    ensures r.None? <==> forall c :: c in Candidates(search) ==> c !in list
    ensures r.Some? ==> r.value.macAddress in list && r.value.macAddress in Candidates(search)
    ensures r.Some? ==> Success(r.value) == FullHostInfo(list, cache, now, r.value.macAddress)
  {
    var candidates := Candidates(search);
    match FirstKey(candidates, list.Keys)
    case None => None
    case Some(i) => Some(FullHostInfo(list, cache, now, candidates[i]).value)
  }

  /** A search that is exactly a key resolves to that key, whatever its rewrites would match. */
  lemma ExactKeyWins(list: map<string, Attrs>, cache: Store, now: int, search: string)
    requires search in list
    ensures Resolve(list, cache, now, search) == Some(FullHostInfo(list, cache, now, search).value)
    ensures Resolve(list, cache, now, search).value.macAddress == search
  {
  }

  /**
    Otherwise the rewrites are tried with `-`, then `:`, then no joiner, and
    the first one that is a key is returned; later ones are not consulted.
  */
  lemma FirstRewriteWins(list: map<string, Attrs>, cache: Store, now: int, search: string, i: nat)
    requires search !in list
    requires i < |Joiners| && Rewrite(search, Joiners[i]) in list
    requires forall j :: 0 <= j < i ==> Rewrite(search, Joiners[j]) !in list
    ensures Resolve(list, cache, now, search) == Some(FullHostInfo(list, cache, now, Rewrite(search, Joiners[i])).value)
  {
  }

  /**
    No false positives: a found host is a directory key whose non-separator
    characters are exactly those of the search string.
  */
  lemma {:induction false} NoFalsePositive(list: map<string, Attrs>, cache: Store, now: int, search: string)
    requires Resolve(list, cache, now, search).Some?
    ensures Resolve(list, cache, now, search).value.macAddress in list
    ensures RemoveSeps(Resolve(list, cache, now, search).value.macAddress) == RemoveSeps(search)
  {
    var found := Resolve(list, cache, now, search).value.macAddress;
    var candidates := Candidates(search);
    var i :| 0 <= i < |candidates| && candidates[i] == found;
    if i > 0 {
      RewriteKeepsNonSeparators(search, Joiners[i - 1]);
    }
  }

  /**
    A MAC address written contiguously, with `:` or with `-` resolves
    whenever the directory holds the same digits (same letter case) in any
    of those three encodings; the host found is one of those encodings, and
    it is the stored one when only one of them is a key.
  */
  lemma EncodingsResolve(list: map<string, Attrs>, cache: Store, now: int, h: string, stored: string, written: string)
    requires |h| == 12 && IsHexPairs(h)
    requires IsJoiner(stored) && IsJoiner(written)
    requires Join(h, stored) in list
    ensures Resolve(list, cache, now, Join(h, written)).Some?
    ensures exists j :: IsJoiner(j) && Resolve(list, cache, now, Join(h, written)).value.macAddress == Join(h, j)
    ensures (forall j :: IsJoiner(j) && Join(h, j) in list ==> Join(h, j) == Join(h, stored))
            ==> Resolve(list, cache, now, Join(h, written)).value.macAddress == Join(h, stored)
  {
    var search := Join(h, written);
    forall i | 0 <= i < |Joiners|
      ensures Rewrite(search, Joiners[i]) == Join(h, Joiners[i])
    {
      RewriteCanonical(h, written, Joiners[i]);
    }
    var candidates := Candidates(search);
    var k :| 0 <= k < |Joiners| && Joiners[k] == stored;
    assert candidates[k + 1] == Join(h, stored);
    var found := Resolve(list, cache, now, search).value.macAddress;
    var i :| 0 <= i < |candidates| && candidates[i] == found;
    if i == 0 {
      assert found == Join(h, written);
    } else {
      assert found == Join(h, Joiners[i - 1]);
    }
  }

  /**
    Matching is exact, not case-insensitive: when every key starts with a
    character other than the one the search starts with (`A` against `a`,
    say), nothing is found, since no rewrite changes the first character.
  */
  lemma CaseMatters(list: map<string, Attrs>, cache: Store, now: int, search: string)
    requires search != []
    requires forall k :: k in list ==> k != [] && k[0] != search[0]
    ensures Resolve(list, cache, now, search).None?
  {
  }

  /** The registry of one process: the directory loaded at construction and the address cache. */
  class Hosts {
    const list: map<string, Attrs>
    var cache: Store

    /** `list` stands for the parsed configuration, `persisted` for what the cache pool already holds. */
    constructor (list: map<string, Attrs>, persisted: Store)
      ensures this.list == list && cache == persisted
    {
      this.list := list;
      cache := persisted;
    }

    /** `getAll`: the configured directory, which no operation changes. */
    function GetAll(): (r: map<string, Attrs>)
      ensures r == list
    {
      list
    }

    /** `getFullHostInfo` on this registry's directory and cache. */
    function GetFullHostInfo(macAddress: string, now: int): (r: Result<HostInfo, HostException>)
      reads this
      ensures r == FullHostInfo(list, cache, now, macAddress)
    {
      FullHostInfo(list, cache, now, macAddress)
    }

    /** `find`: try the exact key, then each rewrite in turn, returning at the first key. */
    method Find(search: string, now: int) returns (r: Option<HostInfo>)
      ensures r == Resolve(list, cache, now, search)
    {
      if search in list {
        return Some(GetFullHostInfo(search, now).value);
      }
      for i := 0 to |Joiners|
        invariant forall j :: 0 <= j < i ==> Rewrite(search, Joiners[j]) !in list
      {
        var macAddress := Rewrite(search, Joiners[i]);
        if macAddress in list {
          FirstRewriteWins(list, cache, now, search, i);
          return Some(GetFullHostInfo(macAddress, now).value);
        }
      }
      return None;
    }

    /**
      `update`: save the address of `data` under its MAC address, with no
      check that the host is in the directory.
    */
    method Update(data: HostInfo, now: int)
      modifies this
      ensures cache == Save(old(cache), data.macAddress, data.ipAddress, now)
      ensures forall t :: now <= t < now + TimeToLive ==> Get(cache, data.macAddress, t) == data.ipAddress
      ensures forall k, t :: k != data.macAddress ==> Get(cache, k, t) == Get(old(cache), k, t)
    {
      cache := Save(cache, data.macAddress, data.ipAddress, now);
    }
  }
}
