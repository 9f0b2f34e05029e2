# Intercom PHP client: the request pipeline

This project models the request pipeline of `IntercomClient`, the one shared
class through which every resource accessor of the Intercom PHP client talks
to the Intercom REST API. For each HTTP verb, the client builds three things
and hands them to a Guzzle HTTP client:

- a method string (`POST`, `PUT`, `DELETE`, `GET`);
- a target URI: `https://api.intercom.io/` followed by the endpoint. For
  `nextPage` it is instead the `next` URL of the page cursor, taken as it is;
- a Guzzle options array. This is the verb's defaults merged with the extra
  options given to the constructor by PHP's `array_replace_recursive`. The
  defaults are the payload under `json` or `query`, the credential pair under
  `auth`, and `headers => [Accept => application/json]`.

The model has three modules:

- `PhpValue` (`php_value.dfy`): PHP values. A PHP array is an ordered list of
  entries with distinct integer or string keys. `Find` is a lookup and `Put` is
  an assignment `$a[$k] = $v` (an existing key keeps its place; a new key is
  appended). `Property` is a property read `$obj->name`.
- `ArrayReplace` (`array_replace.dfy`): `array_replace_recursive` as a
  recursive function, with its properties. The result has exactly the keys of
  both arrays, with the base keys first. Every key is merged independently
  (`Replaced`). A key only in the base is kept. A key in the extras takes the
  extra value, unless both values are arrays, which are merged recursively.
  Disjoint arrays are appended. The merge is idempotent in the extras, and an
  array merged with itself is unchanged.
- `Intercom` (`intercom_client.dfy`): the class `IntercomClient`. Its fields
  are the transport slot, the credentials and the extra options. Its verb
  methods return a `Request(verb, uri, options)` record instead of sending it.
  The module also holds the lemmas about the verbs' defaults and the concrete
  merges the client depends on (an added header joins `Accept`; the `auth`
  list is merged index by index).

## Model

| member | source | states |
|---|---|---|
| `PhpValue.Find` | src/IntercomClient.php:208 | looking a key up in a PHP array finds a value exactly when the key is present, and the value found is the one stored under that key |
| `PhpValue.Put` | src/IntercomClient.php:208 | storing under a key makes it hold the value and adds the key to the key set |
| `PhpValue.PutOther` | src/IntercomClient.php:208 | storing under one key leaves every other key's value alone |
| `PhpValue.PutKeyOrder` | src/IntercomClient.php:208 | an existing key keeps its position; a new key is appended last |
| `PhpValue.Property` | src/IntercomClient.php:197 | `$pages->next` is the `next` property of an object that has one, and `null` otherwise |
| `ArrayReplace.ArrayReplaceRecursive` | src/IntercomClient.php:208 | `array_replace_recursive`, with `MergeValue` and `ReplaceFrom`. It walks the extras in order. Where both the stored value and the extra value are arrays it merges them recursively; otherwise it stores the extra value, in place for an existing key and appended for a new one. Its contract: the result has exactly the union of the defaults' keys and the extras' keys |
| `ArrayReplace.KeyOrder` | src/IntercomClient.php:208 | key order of the result: the defaults' keys in their order, then the keys found only in the extras, in the extras' order |
| `ArrayReplace.KeepsDistinct` | src/IntercomClient.php:208 | merging into an array with distinct keys yields an array with distinct keys |
| `ArrayReplace.FindReplaced` | src/IntercomClient.php:208 | the merge works key by key: each key holds `Replaced(default value, extra value)` |
| `ArrayReplace.BaseOnlyKeyKept` | src/IntercomClient.php:208 | a key present only in the defaults keeps its default value |
| `ArrayReplace.ExtraValueWins` | src/IntercomClient.php:208 | a key present in the extras takes the extra value unless both values are arrays |
| `ArrayReplace.NestedArraysMerged` | src/IntercomClient.php:208 | a key holding an array on both sides holds the recursive merge of the two arrays |
| `ArrayReplace.SameSingleKey` | src/IntercomClient.php:208 | two one-entry arrays with the same key merge into one entry holding the merged value |
| `ArrayReplace.DisjointAppends` | src/IntercomClient.php:206-209 | with no shared key the result is the defaults followed by the extras; so empty defaults (the parameter's default `[]`) give the extras back |
| `ArrayReplace.MergeCovered` | src/IntercomClient.php:208 | merging extras that the base already covers leaves the base unchanged |
| `ArrayReplace.MergeCovers` | src/IntercomClient.php:208 | a merge result covers the extras merged into it |
| `ArrayReplace.Idempotent` | src/IntercomClient.php:208 | merging the same extras a second time changes nothing |
| `ArrayReplace.SelfMerge` | src/IntercomClient.php:208 | an array merged with itself is itself |
| `Intercom.BodyDefaults` | src/IntercomClient.php:108-114 | `post`/`put`/`delete` defaults put the payload under `json` and nothing under `query`, and carry `auth` and the `Accept` header |
| `Intercom.QueryDefaults` | src/IntercomClient.php:170-176 | `get` defaults put the payload under `query` and nothing under `json`, and carry `auth` and the `Accept` header |
| `Intercom.PageDefaults` | src/IntercomClient.php:190-195 | `nextPage` defaults carry neither `json` nor `query`, and carry `auth` and the `Accept` header |
| `Intercom.AcceptAfterMerge` | src/IntercomClient.php:111-113 | after the merge, `Accept` is `application/json` unless the extras set their own `Accept`, which then wins, or replace `headers` by a non-array, which removes it |
| `Intercom.MergedOptions` | src/IntercomClient.php:108-116 | the merged options' `json`, `query`, `auth` and `Accept` values in terms of the defaults and the extras |
| `Intercom.ExtraHeaderJoinsAccept` | src/IntercomClient.php:111-113 | an extra header with another name is added beside `Accept: application/json` |
| `Intercom.ExtraAcceptReplaces` | src/IntercomClient.php:111-113 | an extra `Accept` header replaces the default one |
| `Intercom.ExtraAuthReplaces` | src/IntercomClient.php:110 | an extra two-element `auth` list replaces the default credential pair |
| `Intercom.ExtraAuthMergesByIndex` | src/IntercomClient.php:215-218 | the credential pair is a list, so a one-element extra `auth` list replaces the username only |
| `Intercom.IntercomClient.constructor` | src/IntercomClient.php:63-83 | stores the credentials and the extra options (default empty) and installs the default transport |
| `Intercom.IntercomClient.SetClient` | src/IntercomClient.php:94-97 | replaces only the transport; the credentials and extra options are unchanged |
| `Intercom.IntercomClient.GetAuth` | src/IntercomClient.php:215-218 | the two-element list with keys 0 and 1, holding the stored username and then the stored password |
| `Intercom.IntercomClient.GetGuzzleRequestsOptions` | src/IntercomClient.php:206-209 | keys are the union of the defaults' and the extras' keys, and each key holds `Replaced`; no extras give the defaults unchanged; no defaults give the extras; merging the extras again changes nothing |
| `Intercom.IntercomClient.Post` | src/IntercomClient.php:106-118 | `POST` to base URL + endpoint; payload under `json`; `query` only if the extras set it; `auth` and `Accept` as merged with the extras |
| `Intercom.IntercomClient.Put` | src/IntercomClient.php:127-139 | `PUT` to base URL + endpoint, with options as for `Post` |
| `Intercom.IntercomClient.Delete` | src/IntercomClient.php:148-160 | `DELETE` to base URL + endpoint, with options as for `Post` |
| `Intercom.IntercomClient.Get` | src/IntercomClient.php:168-180 | `GET` to base URL + endpoint; payload under `query`; `json` only if the extras set it; `auth` and `Accept` as merged |
| `Intercom.IntercomClient.NextPage` | src/IntercomClient.php:188-199 | `GET` to exactly `$pages->next`, with no base URL; neither `json` nor `query` unless the extras set them; `auth` and `Accept` as merged |
| `Intercom.SetClientKeepsRequests` | src/IntercomClient.php:94-97 | the five requests built before `setClient` are exactly what `post`, `put`, `delete`, `get` and `nextPage` send: the verb, the target, and that verb's defaults (payload, the stored credential pair, `Accept`) merged into the stored extra options; the five built after it are the same |

## Left out

- The Guzzle client and `request(...)` dispatch (src/IntercomClient.php:87, 116, 137, 158, 178, 197) are foreign network code. The transport slot holds an abstract `Transport` value. The verbs return the request they would dispatch.
- `handleResponse` (src/IntercomClient.php:224-229) is `stream_for` plus `json_decode`. Both are library behaviour and are not modelled. Note that `json_decode` without flags returns `null` on malformed JSON instead of raising an error. A separate decode error would need changes to the code.
- Guzzle's conversion of `auth` into a Basic `Authorization` header, and its encoding of `query` and `json`, are library internals.
- Guzzle's exceptions (transport failures, HTTP error statuses, a `next` URI that is not a string) come from foreign code. `IntercomClient` handles none of them.
- The resource accessor objects built by the constructor (src/IntercomClient.php:66-78) are not part of this model: they are leaf callers of the verbs and hold no pipeline logic.
- PHP's conversion of integer-like string keys to integer keys is not modelled: keys are taken as already normalised.
- PHP references inside arrays, and the recursion guard of `array_replace_recursive`, are not modelled: values here are trees.
- Floating-point and other scalar kinds are not modelled. The merge treats every non-array value the same way, so no merge behaviour depends on them.
- For `nextPage`, the target is the `Value` read from `$pages->next`, which is `null` when the cursor has no `next`. The code performs no check, so the model does not report an error for a missing cursor; rejecting it is left to the transport.
- The constructor requires that the extra options form a well-formed PHP array (distinct keys at every level). This holds for every PHP array; the model states it because arrays are represented as lists.
- Intercom.IntercomClient.constructor: extra options that are not an array are excluded by the field's type. In the code the parameter is untyped and stored as given (src/IntercomClient.php:63, 82), and then every verb fails inside `array_replace_recursive` (src/IntercomClient.php:208): PHP 8 throws a `TypeError`, and PHP 7 returns `null`, which Guzzle's `array $options` parameter rejects. The model does not represent that failing client.
