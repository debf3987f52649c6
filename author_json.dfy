/** jsonSerialize: the array of the object's properties with the id turned into
 *  its string form and the activation token and hash removed.  PHP arrays are
 *  ordered, so an array is a sequence of key/value pairs.
 */
module AuthorJson {
  import opened Php
  import opened AuthorValidation

  /** The values the properties of an Author can hold. */
  datatype PhpValue = PhpString(s: string) | PhpNull | PhpUuid(id: Uuid)

  /** An ordered PHP array with string keys. */
  type PhpArray = seq<(string, PhpValue)>

  function Keys(a: PhpArray): (ks: seq<string>)
    ensures |ks| == |a| && forall i :: 0 <= i < |a| ==> ks[i] == a[i].0
  {
    if a == [] then [] else [a[0].0] + Keys(a[1..])
  }

  /** `$a[$k]`, or None when the key is absent: the first entry with that key. */
  function Lookup(a: PhpArray, k: string): (r: Option<PhpValue>)
    ensures r.Some? <==> k in Keys(a)
  {
    if a == [] then None else if a[0].0 == k then Some(a[0].1) else Lookup(a[1..], k)
  }

  /** `$a[$k] = $v`: an existing entry is overwritten where it stands, a new one is appended. */
  function ArraySet(a: PhpArray, k: string, v: PhpValue): (r: PhpArray)
    ensures Keys(r) == if k in Keys(a) then Keys(a) else Keys(a) + [k]
    ensures Lookup(r, k) == Some(v)
    ensures forall k' :: k' != k ==> Lookup(r, k') == Lookup(a, k')
  {
    if a == [] then [(k, v)]
    else if a[0].0 == k then [(k, v)] + a[1..]
    else [a[0]] + ArraySet(a[1..], k, v)
  }

  /** `unset($a[$k])`: every entry with key `k` is gone, the others keep their order. */
  function ArrayUnset(a: PhpArray, k: string): (r: PhpArray)
    ensures k !in Keys(r)
    ensures forall k' :: k' != k ==> Lookup(r, k') == Lookup(a, k')
    ensures forall k' :: k' in Keys(r) <==> k' in Keys(a) && k' != k
  {
    if a == [] then []
    else if a[0].0 == k then ArrayUnset(a[1..], k)
    else [a[0]] + ArrayUnset(a[1..], k)
  }

  /** get_object_vars($this): the six properties in declaration order, each
   *  under its own name; the token is null when it is absent. */
  function ObjectVars(f: AuthorFields): (r: PhpArray)
    ensures Keys(r) == ["authorId", "authorActivationToken", "authorAvatarUrl", "authorEmail", "authorHash", "authorUsername"]
  {
    [ ("authorId", PhpUuid(f.id)),
      ("authorActivationToken", if f.activationToken.Some? then PhpString(f.activationToken.value) else PhpNull),
      ("authorAvatarUrl", PhpString(f.avatarUrl)),
      ("authorEmail", PhpString(f.email)),
      ("authorHash", PhpString(f.hash)),
      ("authorUsername", PhpString(f.username)) ]
  }

  /** The projection the serialisation is meant to produce, written out entry by entry. */
  function Projection(lib: Library, f: AuthorFields): PhpArray {
    [ ("authorId", PhpString(lib.uuidToString(f.id))),
      ("authorAvatarUrl", PhpString(f.avatarUrl)),
      ("authorEmail", PhpString(f.email)),
      ("authorUsername", PhpString(f.username)) ]
  }

  /** Unsetting a key that is not there changes nothing. */
  lemma {:induction false} UnsetAbsent(a: PhpArray, k: string)
    requires k !in Keys(a)
    ensures ArrayUnset(a, k) == a
  {
    if a != [] {
      assert Keys(a[1..]) == Keys(a)[1..];
      UnsetAbsent(a[1..], k);
    }
  }

  /** Putting the head back in front of the tail with its element `i - 1` cut out
   *  is cutting element `i` out of the whole. */
  lemma CutAfterHead<T>(a: seq<T>, i: nat)
    requires 0 < i < |a|
    ensures [a[0]] + (a[1..][..i - 1] + a[1..][i..]) == a[..i] + a[i + 1..]
  {
    assert a[..i] == [a[0]] + a[1..][..i - 1];
    assert a[1..][i..] == a[i + 1..];
  }

  /** Unsetting a key that stands at position `i` and nowhere else removes that one entry. */
  lemma {:induction false} UnsetAt(a: PhpArray, k: string, i: nat)
    requires i < |a| && a[i].0 == k
    requires forall j :: 0 <= j < |a| && j != i ==> a[j].0 != k
    ensures ArrayUnset(a, k) == a[..i] + a[i + 1..]
  {
    if i == 0 {
      assert k !in Keys(a[1..]) by {
        assert forall j :: 0 <= j < |a[1..]| ==> a[1..][j].0 == a[j + 1].0;
      }
      UnsetAbsent(a[1..], k);
      assert a[..0] + a[1..] == a[1..];
    } else {
      assert a[0].0 != k;
      assert forall j :: 0 <= j < |a[1..]| && j != i - 1 ==> a[1..][j].0 != k by {
        assert forall j :: 0 <= j < |a[1..]| ==> a[1..][j] == a[j + 1];
      }
      UnsetAt(a[1..], k, i - 1);
      CutAfterHead(a, i);
    }
  }

  /** `$fields["authorId"] = $id` overwrites the first entry where it stands. */
  lemma SetIdStep(f: AuthorFields, v: PhpValue)
    ensures ArraySet(ObjectVars(f), "authorId", v) == [("authorId", v)] + ObjectVars(f)[1..]
  {
  }

  /** `unset($fields["authorActivationToken"])` removes the second entry. */
  lemma UnsetTokenStep(a: PhpArray)
    requires |a| == 6 && a[1].0 == "authorActivationToken"
    requires a[0].0 == "authorId" && a[2].0 == "authorAvatarUrl" && a[3].0 == "authorEmail"
    requires a[4].0 == "authorHash" && a[5].0 == "authorUsername"
    ensures ArrayUnset(a, "authorActivationToken") == [a[0], a[2], a[3], a[4], a[5]]
  {
    UnsetAt(a, "authorActivationToken", 1);
    assert a[..1] + a[2..] == [a[0], a[2], a[3], a[4], a[5]];
  }

  /** `unset($fields["authorHash"])` then removes the fourth remaining entry. */
  lemma UnsetHashStep(a: PhpArray)
    requires |a| == 5 && a[3].0 == "authorHash"
    requires a[0].0 == "authorId" && a[1].0 == "authorAvatarUrl" && a[2].0 == "authorEmail"
    requires a[4].0 == "authorUsername"
    ensures ArrayUnset(a, "authorHash") == [a[0], a[1], a[2], a[4]]
  {
    UnsetAt(a, "authorHash", 3);
    assert a[..3] + a[4..] == [a[0], a[1], a[2], a[4]];
  }

  /** The projection has exactly the four public keys, the id first as a string. */
  lemma ProjectionShape(lib: Library, f: AuthorFields)
    ensures Keys(Projection(lib, f)) == ["authorId", "authorAvatarUrl", "authorEmail", "authorUsername"]
    ensures "authorActivationToken" !in Keys(Projection(lib, f)) && "authorHash" !in Keys(Projection(lib, f))
    ensures Lookup(Projection(lib, f), "authorId") == Some(PhpString(lib.uuidToString(f.id)))
  {
    var ks := Keys(Projection(lib, f));
    assert ks == ["authorId", "authorAvatarUrl", "authorEmail", "authorUsername"];
    assert forall k :: k in ks ==> |k| != |"authorActivationToken"| && |k| != |"authorHash"|;
  }

  /** jsonSerialize: exactly the keys authorId, authorAvatarUrl, authorEmail and
   *  authorUsername in that order, the id as its string form, the other three
   *  values as stored; neither the activation token nor the hash appears. */
  function JsonSerialize(lib: Library, f: AuthorFields): (r: PhpArray)
    ensures r == Projection(lib, f)
    ensures Keys(r) == ["authorId", "authorAvatarUrl", "authorEmail", "authorUsername"]
    ensures "authorActivationToken" !in Keys(r) && "authorHash" !in Keys(r)
    ensures Lookup(r, "authorId") == Some(PhpString(lib.uuidToString(f.id)))
  {
    var fields := ArraySet(ObjectVars(f), "authorId", PhpString(lib.uuidToString(f.id)));
    SetIdStep(f, PhpString(lib.uuidToString(f.id)));
    var noToken := ArrayUnset(fields, "authorActivationToken");
    UnsetTokenStep(fields);
    var noHash := ArrayUnset(noToken, "authorHash");
    UnsetHashStep(noToken);
    ProjectionShape(lib, f);
    noHash
  }
}
