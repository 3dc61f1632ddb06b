/** What several parts share. */
module Basics {

  type Byte = b: int | 0 <= b < 256 witness 0

  datatype Option<+T> = None | Some(value: T)

  /** `enum golioth_status`. */
  datatype Status =
    | OK | FAIL | DNS_LOOKUP | NOT_IMPLEMENTED | MEM_ALLOC | NULL | INVALID_FORMAT | SERIALIZE | IO
    | TIMEOUT | QUEUE_FULL | NOT_ALLOWED | INVALID_STATE | NO_MORE_DATA | NACK | BAD_REQUEST
    | INVALID_BLOCK_SIZE | COAP_RESPONSE

  function Pow2(k: nat): (r: nat)
    ensures r >= 1
  {
    if k == 0 then 1 else 2 * Pow2(k - 1)
  }

  function Min(a: int, b: int): int {
    if a <= b then a else b
  }

  function RemoveAt<T>(s: seq<T>, i: nat): seq<T>
    requires i < |s|
  {
    s[..i] + s[i + 1..]
  }

  lemma RemovedAt<T>(s: seq<T>, i: nat, k: nat)
    requires i < |s| && k < |s| - 1
    ensures RemoveAt(s, i)[k] == s[if k < i then k else k + 1]
  {
  }

  lemma RemoveAtCons<T>(v: T, s: seq<T>, i: nat)
    requires i < |s|
    ensures RemoveAt([v] + s, i + 1) == [v] + RemoveAt(s, i)
  {
  }

  lemma Associative<T>(a: seq<T>, b: seq<T>, c: seq<T>)
    ensures (a + b) + c == a + (b + c)
  {
  }
}
