# Hosts registry of the dynamic-DNS API, modelled in Dafny

The `Hosts` model class of the smart-api dynamic-DNS service keeps a
static directory of known hosts, keyed by MAC address and loaded once from
configuration. It also keeps a time-to-live cache holding the last IP
address each host reported. This project models:

- `find`, which matches a raw MAC-address string against the directory
  keys. It tries the exact string first. Then it tries three rewrites by one
  regular expression: pairs joined by `-`, by `:`, and by nothing.
- `getFullHostInfo`, which joins a directory entry with its cached address.
- `update`, which saves an address into the cache.
- `getAll`, which returns the directory.

Files:

- `mac_address.dfy` (module `MacAddress`): the regex
  `(?:([0-9a-fA-F]{2})[\:\-]?(?!$))` with replacement `$1` + joiner. It is
  written as a left-to-right string transducer, `Rewrite`. The module also
  holds its lemmas: it keeps the digits, it is idempotent, and it maps
  canonical encodings into each other.
- `address_cache.dfy` (module `AddressCache`): the cache pool as a
  `map<string, Entry>`. Each entry holds a value and an expiry second. The
  clock is an explicit `now` parameter. An item is a hit while
  `now < expiresAt`.
- `hosts.dfy` (module `Hosts`): `FullHostInfo` and `Resolve`, the pure
  meaning of `getFullHostInfo` and `find` over the directory, cache and
  clock. It also holds the class `Hosts`. The class has the immutable
  `list`, the mutable `cache`, a `Find` method that runs the source's loop
  over the three replacements with early return, and `Update`.
- `wrappers.dfy`: `Option` (PHP `null`) and `Result` (a thrown `HostException`).

Two comments in src/Model/Hosts.php differ from the code, and the model
follows the code:

- The doc comment of `find` (src/Model/Hosts.php:55) says it matches
  "insensitively". The lookups use a strict `contains(..., true)` and no
  case folding, so matching is only separator-insensitive. It is exact in
  letter case, as `CaseMatters` proves.
- The comment beside the lifetime constant (src/Model/Hosts.php:26) says
  20 days. The value `2592000` seconds is 30 days.

The code does not check that a search holds 12 hex digits. Any rewrite
that equals a key matches.

The rewrite with the empty joiner (`$1`) is not idempotent in general.
`"ab::c"` becomes `"ab:c"`, and a second pass gives `"abc"`
(`NoJoinerNotIdempotent`). The lookup applies each rewrite only once, so
this does not change what `find` returns.

## Model

| member | source | states |
|---|---|---|
| `MacAddress.Rewrite` | src/Model/Hosts.php:64-68 | the global regex replacement: the empty input gives the empty result, and the first character is never changed |
| `MacAddress.RewriteKeepsNonSeparators` | src/Model/Hosts.php:64-68 | with any of the three replacements, the non-separator characters of the result are exactly those of the input, in order; only `:`/`-` are inserted or removed |
| `MacAddress.RewriteSplitsAt` | src/Model/Hosts.php:64-68 | a character that is neither hex nor a separator splits the rewrite: the result is the rewrite of the text up to and including it, followed by the rewrite of the rest, so no character on either side is dropped or merged across it |
| `MacAddress.RewriteCopiesNonHex` | src/Model/Hosts.php:64-68 | a non-hex character at the start, such as a separator that no match consumed, is copied and the rest is rewritten on its own |
| `MacAddress.RewriteWithoutPairs` | src/Model/Hosts.php:64-68 | a string with no two adjacent hex digits passes through unchanged |
| `MacAddress.RewriteIdempotent` | src/Model/Hosts.php:64-68 | rewriting the output again gives the same string: for `$1-` and `$1:` on every input, for `$1` on inputs without adjacent separators |
| `MacAddress.NoJoinerNotIdempotent` | src/Model/Hosts.php:64-68 | counterexample: with `$1`, `ab::c` rewrites to `ab:c`, which rewrites to `abc` |
| `MacAddress.RewriteCanonical` | src/Model/Hosts.php:63-73 | hex pairs written contiguously, with `:` or with `-` are rewritten by each replacement into the same pairs joined by that replacement's joiner, with no trailing joiner |
| `AddressCache.ExpiryIsPermanent` | src/Model/Hosts.php:92-93 | once a read of an item gives `null` because it is missing or expired, every later read gives `null` too, as long as nothing saves it again |
| `AddressCache.Save` | src/Model/Hosts.php:105-107 | after a save, reads of the key give the new value for exactly TimeToLive seconds and `null` afterwards; reads of every other key are unchanged |
| `AddressCache.SavedThenRead` | src/Model/Hosts.php:40-43 | an item saved at `t` is read back at `now >= t` if and only if `now < t + 2592000`, so it expires even though it is never deleted |
| `AddressCache.SaveOverwrites` | src/Model/Hosts.php:105-107 | a second save of a key replaces the first: one item per key |
| `Hosts.FullHostInfo` | src/Model/Hosts.php:83-96 | fails with `HostException("Host not found!")` if and only if the key is not exactly in the directory; otherwise the result has the key's static attributes, `macAddress` equal to the key, and `ipAddress` equal to the cached value at `now` (`null` on a miss or expiry) |
| `Hosts.FirstKey` | src/Model/Hosts.php:63-73 | returns the index of the first candidate that is a key, with no earlier candidate a key; returns nothing only when no candidate is a key |
| `Hosts.Resolve` | src/Model/Hosts.php:57-76 | `find` gives an empty result exactly when no candidate is a key; otherwise it gives the full host info of a candidate that is a key |
| `Hosts.ExactKeyWins` | src/Model/Hosts.php:59-61 | a search that is exactly a key returns that key's entry with `macAddress == search`, even if a rewrite would match another key |
| `Hosts.FirstRewriteWins` | src/Model/Hosts.php:63-73 | otherwise the first rewrite, in the order `-`, `:`, none, that is a key is returned, and later rewrites are not consulted |
| `Hosts.NoFalsePositive` | src/Model/Hosts.php:70-75 | a found host's `macAddress` is a directory key with the same non-separator characters as the search |
| `Hosts.EncodingsResolve` | src/Model/Hosts.php:63-73 | 12 hex digits written contiguously, with `:` or with `-` resolve whenever the directory stores the same digits in any of the three encodings; the key found is one of those encodings, and it is the stored one when only one of them is a key |
| `Hosts.CaseMatters` | src/Model/Hosts.php:59-72 | comparisons are exact: keys whose first character differs from the search's, even only in letter case, are never found, because no rewrite changes the first character |
| `Hosts.Hosts.constructor` | src/Model/Hosts.php:34-44 | the registry starts with the given directory and the cache contents already persisted |
| `Hosts.Hosts.GetAll` | src/Model/Hosts.php:49-52 | returns the directory loaded at construction; no method changes it |
| `Hosts.Hosts.GetFullHostInfo` | src/Model/Hosts.php:83-96 | `getFullHostInfo` on the registry's own directory and cache is `FullHostInfo`: it fails with "Host not found!" exactly when the key is absent, and otherwise returns the entry with the key and the cached address |
| `Hosts.Hosts.Find` | src/Model/Hosts.php:57-76 | the loop over the three replacements with early return computes exactly `Resolve` |
| `Hosts.Hosts.Update` | src/Model/Hosts.php:103-108 | saves `data.ipAddress` under `data.macAddress` whether or not the host is in the directory; a read of that key gives the new address for TimeToLive seconds, and reads of every other key are unchanged |

## Left out

- `Hosts.Resolve`: directory keys are strings, and a string key always matches itself. PHP turns an array key that is a plain decimal integer (no leading zero, in the 64-bit range) into an int. An all-digit MAC address such as `112233445566` would then be stored as an int, and the strict comparisons at src/Model/Hosts.php:59 and :70 would never match it. The JSON library that builds the directory is not part of this model, so this case is not captured.
- `Hosts.FullHostInfo`: for the same reason, it finds such an integer-like key, where the strict check at src/Model/Hosts.php:85 would throw "Host not found!".
- `RewriteIdempotent`: for the `$1` replacement it is stated only for inputs without two adjacent separators, because it fails otherwise (`NoJoinerNotIdempotent`).
- `Hosts::create` and `Hosts::delete` are called by the HTTP controller but are not defined in src/Model/Hosts.php, so they are not modelled.
- The HTTP controller (src/Controller/DynamicDNS.php) is not part of this model. This includes request parsing, client-IP lookup, status codes, the `DDNS_CAN_DELETE` gate and MAC validation.
- Parsing the `DDNS_HOSTS` JSON into the directory is an external library. The directory is a given map, and attribute values are modelled as strings.
- Filesystem persistence, the cache namespace and the real clock are replaced by a map and an explicit `now`. Storage I/O failures are not modelled.
- The cache library's own key validation is not modelled; every string is accepted as a cache key. That library rejects keys that are empty or contain reserved characters such as `:`.
- PCRE's `$` also matches before a final newline. Inputs are assumed to hold no newline.
- `getFullHostInfo` writes `macAddress` and `ipAddress` onto the stored directory object through PHP object aliasing. The model returns a fresh record instead, so the directory never changes.
