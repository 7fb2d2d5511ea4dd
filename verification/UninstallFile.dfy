/**
 The uninstall file: a 64-bit entry count, then per entry its 64-bit location, its
 64-bit length and its bytes.
 */
module UninstallFile {
  import opened Options
  import opened Journal
  import opened ByteCodec

  const UNINSTALL_DATA_MAX: nat := 256

  /** fwrite and fread report failure for an empty item, so an empty entry cannot be stored. */
  ghost predicate Storable(list: seq<Entry>) {
    forall e | e in list :: e.data != []
  }

  /** The fields are 64-bit values. */
  ghost predicate Fits(list: seq<Entry>) {
    forall e | e in list :: e.loc < 0x1_0000_0000_0000_0000 && |e.data| < 0x1_0000_0000_0000_0000
  }

  function EncodeEntry(e: Entry): seq<byte> {
    Le64(e.loc) + Le64(|e.data|) + e.data
  }

  function EncodeList(list: seq<Entry>): seq<byte> {
    if list == [] then [] else EncodeEntry(list[0]) + EncodeList(list[1..])
  }

  function Encode(list: seq<Entry>): seq<byte> {
    Le64(|list|) + EncodeList(list)
  }

  /** One entry at the front of b, when all of it is there. */
  function DecodeEntry(b: seq<byte>): Option<Entry> {
    if |b| < 16 then None
    else
      var loc, count := LeValue(b[..8]), LeValue(b[8..16]);
      if count == 0 || |b| - 16 < count then None else Some(Entry(loc, b[16..16 + count]))
  }

  function DecodeList(n: nat, b: seq<byte>): Option<seq<Entry>> {
    if n == 0 then Some([])
    else
      match DecodeEntry(b)
      case None => None
      case Some(e) =>
        match DecodeList(n - 1, b[16 + |e.data|..])
        case None => None
        case Some(rest) => Some([e] + rest)
  }

  function Decode(b: seq<byte>): Option<seq<Entry>> {
    if |b| < 8 then None
    else if LeValue(b[..8]) > UNINSTALL_DATA_MAX then None
    else DecodeList(LeValue(b[..8]), b[8..])
  }

  /** Whatever decodes has 64-bit locations. */
  lemma {:induction false} DecodedIsAddressable(n: nat, b: seq<byte>)
    ensures DecodeList(n, b).Some? ==> Addressable(DecodeList(n, b).value)
  {
    if n > 0 && DecodeEntry(b).Some? {
      var e := DecodeEntry(b).value;
      LeValueBound(b[..8]);
      assert Pow256(4) == 0x1_0000_0000;
      assert Pow256(8) == 0x1_0000_0000_0000_0000;
      DecodedIsAddressable(n - 1, b[16 + |e.data|..]);
    }
  }

  /** A decoded list with the entries read so far in front. */
  function Prepend(done: seq<Entry>, rest: Option<seq<Entry>>): Option<seq<Entry>> {
    match rest
    case None => None
    case Some(list) => Some(done + list)
  }

  lemma {:induction false} PrependEnds(done: seq<Entry>, rest: Option<seq<Entry>>)
    ensures Prepend([], rest) == rest && Prepend(done, Some([])) == Some(done)
  {
    if rest.Some? { assert [] + rest.value == rest.value; }
    assert done + [] == done;
  }

  lemma {:induction false} PrependStep(done: seq<Entry>, n: nat, b: seq<byte>)
    requires n > 0
    ensures Prepend(done, DecodeList(n, b))
         == match DecodeEntry(b)
            case None => None
            case Some(e) => Prepend(done + [e], DecodeList(n - 1, b[16 + |e.data|..]))
  {
    if DecodeEntry(b).Some? {
      var e := DecodeEntry(b).value;
      if DecodeList(n - 1, b[16 + |e.data|..]).Some? {
        var rest := DecodeList(n - 1, b[16 + |e.data|..]).value;
        assert done + ([e] + rest) == (done + [e]) + rest;
      }
    }
  }

  /** The entries read so far, with what n more entries of b decode to, are what the file decodes to; folded. */
  ghost predicate Loading(done: seq<Entry>, n: nat, b: seq<byte>, file: seq<byte>) {
    forall m: nat | UnfoldFile(m) :: Prepend(done, DecodeList(n, b)) == Decode(file)
  }

  lemma {:induction false} LoadingStarts(file: seq<byte>)
    requires |file| >= 8 && LeValue(file[..8]) <= UNINSTALL_DATA_MAX
    ensures Loading([], LeValue(file[..8]), file[8..], file)
  {
    PrependEnds([], Decode(file));
  }

  lemma {:induction false} LoadingStep(done: seq<Entry>, n: nat, b: seq<byte>, file: seq<byte>)
    requires n > 0 && Loading(done, n, b, file)
    ensures match DecodeEntry(b)
            case None => Decode(file) == None
            case Some(e) => Loading(done + [e], n - 1, b[16 + |e.data|..], file)
  {
    assert UnfoldFile(0);
    PrependStep(done, n, b);
  }

  lemma {:induction false} LoadingEnds(done: seq<Entry>, b: seq<byte>, file: seq<byte>)
    requires Loading(done, 0, b, file)
    ensures Decode(file) == Some(done)
  {
    assert UnfoldFile(0);
    PrependEnds(done, None);
  }

  /** The file holds the first i entries of the list behind the count; folded. */
  ghost predicate Stored(file: seq<byte>, list: seq<Entry>, i: nat) {
    forall n: nat | UnfoldFile(n) ::
      i <= |list| && Storable(list[..i]) && file == Le64(|list|) + EncodeList(list[..i])
  }

  predicate UnfoldFile(n: nat) { true }

  lemma {:induction false} StoredEnds(file: seq<byte>, list: seq<Entry>)
    ensures Stored(Le64(|list|), list, 0)
    ensures Stored(file, list, |list|) ==> Storable(list) && file == Encode(list)
  {
    assert UnfoldFile(0);
    assert list[..|list|] == list && Le64(|list|) + [] == Le64(|list|);
  }

  /** One more entry of a list to be stored. */
  lemma {:induction false} StoredStep(file: seq<byte>, list: seq<Entry>, i: nat)
    requires i < |list| && Stored(file, list, i)
    ensures list[i].data != [] ==> Stored(file + EncodeEntry(list[i]), list, i + 1)
    ensures list[i].data == [] ==> !Storable(list)
  {
    assert UnfoldFile(0);
    assert list[..i + 1] == list[..i] + [list[i]];
    EncodeAppend(list[..i], list[i]);
    assert list[i] in list;
  }

  lemma {:induction false} EncodeAppend(list: seq<Entry>, e: Entry)
    ensures EncodeList(list + [e]) == EncodeList(list) + EncodeEntry(e)
  {
    if list == [] {
      assert [e][1..] == [];
    } else {
      EncodeAppend(list[1..], e);
      assert (list + [e])[1..] == list[1..] + [e];
    }
  }

  lemma {:induction false} DecodeEncodedEntry(e: Entry, rest: seq<byte>)
    requires Fits([e]) && e.data != []
    ensures DecodeEntry(EncodeEntry(e) + rest) == Some(e)
    ensures (EncodeEntry(e) + rest)[16 + |e.data|..] == rest
  {
    assert e in [e];
    var b := EncodeEntry(e) + rest;
    assert b[..8] == Le64(e.loc) && b[8..16] == Le64(|e.data|) && b[16..16 + |e.data|] == e.data;
    Le64RoundTrip(e.loc);
    Le64RoundTrip(|e.data|);
  }

  lemma {:induction false} EncodeFirst(list: seq<Entry>, rest: seq<byte>)
    requires list != []
    ensures EncodeList(list) + rest == EncodeEntry(list[0]) + (EncodeList(list[1..]) + rest)
  {
    Associate(EncodeEntry(list[0]), EncodeList(list[1..]), rest);
  }

  lemma {:induction false} Associate(a: seq<byte>, b: seq<byte>, c: seq<byte>)
    ensures (a + b) + c == a + (b + c)
  {
  }

  lemma {:induction false} DecodeFirst(e: Entry, more: seq<Entry>, b: seq<byte>)
    requires Fits([e]) && e.data != [] && DecodeList(|more|, b) == Some(more)
    ensures DecodeList(|more| + 1, EncodeEntry(e) + b) == Some([e] + more)
  {
    DecodeEncodedEntry(e, b);
  }

  lemma {:induction false} DecodeEncodedList(list: seq<Entry>, rest: seq<byte>)
    requires Fits(list) && Storable(list)
    ensures DecodeList(|list|, EncodeList(list) + rest) == Some(list)
  {
    if list != [] {
      var e, tail := list[0], EncodeList(list[1..]) + rest;
      assert e in list;
      EncodeFirst(list, rest);
      DecodeEncodedList(list[1..], rest);
      DecodeFirst(e, list[1..], tail);
      assert [e] + list[1..] == list;
    }
  }

  lemma {:induction false} EncodeDecodedEntry(b: seq<byte>)
    ensures DecodeEntry(b).Some? ==>
              var e := DecodeEntry(b).value;
              e.data != [] && b == EncodeEntry(e) + b[16 + |e.data|..]
  {
    if DecodeEntry(b).Some? {
      LeValueRoundTrip(b[..8]);
      LeValueRoundTrip(b[8..16]);
      var n := 16 + |DecodeEntry(b).value.data|;
      assert b[..16] == b[..8] + b[8..16];
      assert b[..n] == b[..16] + b[16..n];
      assert b == b[..n] + b[n..];
    }
  }

  /** What decodes is a prefix encoded the same way, and has no empty entry. */
  lemma {:induction false} EncodeDecodedList(n: nat, b: seq<byte>)
    ensures DecodeList(n, b).Some? ==>
              var list := DecodeList(n, b).value;
              |list| == n && Storable(list) && EncodeList(list) <= b
  {
    if n > 0 && DecodeList(n, b).Some? {
      EncodeDecodedEntry(b);
      var e := DecodeEntry(b).value;
      var b' := b[16 + |e.data|..];
      EncodeDecodedList(n - 1, b');
      EncodedPrefix(e, DecodeList(n - 1, b').value, b');
    }
  }

  lemma {:induction false} EncodedPrefix(e: Entry, rest: seq<Entry>, b: seq<byte>)
    requires EncodeList(rest) <= b
    ensures EncodeList([e] + rest) <= EncodeEntry(e) + b
  {
    assert ([e] + rest)[1..] == rest;
  }

  /** The file decodes to the stored list exactly when it has at most 256 entries and none is empty. */
  lemma {:induction false} FileRoundTrip(list: seq<Entry>)
    requires Fits(list) && |list| < 0x1_0000_0000_0000_0000
    ensures Decode(Encode(list)) == Some(list) <==> |list| <= 256 && forall e | e in list :: e.data != []
  {
    var b := Encode(list);
    assert b[..8] == Le64(|list|) && b[8..] == EncodeList(list);
    Le64RoundTrip(|list|);
    if Storable(list) {
      DecodeEncodedList(list, []);
      assert EncodeList(list) + [] == EncodeList(list);
    }
    EncodeDecodedList(|list|, EncodeList(list));
  }

  /** The bytes of the file: the count, then for the first entry its location, its length and its data. */
  lemma {:induction false} FileLayout(list: seq<Entry>)
    requires Fits(list) && 0 < |list| < 0x1_0000_0000_0000_0000
    ensures var f, e := Encode(list), list[0];
            && |f| >= 24 + |e.data|
            && LeValue(f[0..8]) == |list| && LeValue(f[8..16]) == e.loc && LeValue(f[16..24]) == |e.data|
            && f[24..24 + |e.data|] == e.data && f[24 + |e.data|..] == EncodeList(list[1..])
  {
    var e := list[0];
    assert e in list;
    Le64RoundTrip(|list|);
    Le64RoundTrip(e.loc);
    Le64RoundTrip(|e.data|);
    FiveParts(Le64(|list|), Le64(e.loc), Le64(|e.data|), e.data, EncodeList(list[1..]));
  }

  lemma {:induction false} FiveParts(a: seq<byte>, b: seq<byte>, c: seq<byte>, d: seq<byte>, rest: seq<byte>)
    requires |a| == |b| == |c| == 8
    ensures var f := a + ((b + c + d) + rest);
            && f[0..8] == a && f[8..16] == b && f[16..24] == c && f[24..24 + |d|] == d && f[24 + |d|..] == rest
  {
  }
}
