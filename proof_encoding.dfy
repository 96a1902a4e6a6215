/** `bytes_to_hex_proof`: every 32-byte proof item as BytesToHex, joined with
    ","; and the splitter and parser that invert it. */
module ProofEncoding {
  import opened Types
  import opened Hex

  /** `slice.join(sep)` on strings. */
  function Join(xs: seq<string>, sep: string): string
  {
    if |xs| == 0 then ""
    else if |xs| == 1 then xs[0]
    else xs[0] + sep + Join(xs[1..], sep)
  }

  /** `str.split(c)`: the maximal pieces between occurrences of `c`; always at
      least one piece, and no piece contains `c`. */
  function Split(s: string, c: char): (r: seq<string>)
    ensures |r| >= 1
    ensures forall k :: 0 <= k < |r| ==> c !in r[k]
    ensures |r| == multiset(s)[c] + 1
    decreases |s|
  {
    if |s| == 0 then [""]
    else
      var rest := Split(s[1..], c);
      assert s == [s[0]] + s[1..];
      if s[0] == c then [""] + rest
      else [[s[0]] + rest[0]] + rest[1..]
  }

  /** The proof items, each as BytesToHex, in order. */
  function HexItems(items: seq<Bytes32>): (r: seq<string>)
    ensures |r| == |items|
  {
    seq(|items|, k requires 0 <= k < |items| => BytesToHex(items[k]))
  }

  /** The string `bytes_to_hex_proof` returns. */
  function HexProof(items: seq<Bytes32>): string
  {
    Join(HexItems(items), ",")
  }

  /** `bytes_to_hex_proof(bytes)`: a loop collecting the encoded items, then
      a join. */
  method BytesToHexProof(items: seq<Bytes32>) returns (s: string)
    ensures s == HexProof(items)
    ensures items == [] ==> s == ""
    ensures ParseProof(s) == Some(items)
  {
    var proofItems: seq<string> := [];
    for k := 0 to |items|
      invariant |proofItems| == k
      invariant forall j :: 0 <= j < k ==> proofItems[j] == BytesToHex(items[j])
    {
      proofItems := proofItems + [BytesToHex(items[k])];
    }
    assert proofItems == HexItems(items);
    s := Join(proofItems, ",");
    HexProofShape(items);
    if |items| >= 1 {
      SplitHexProof(items);
    }
    HexProofRoundTrip(items);
  }

  /** Decodes each piece to a 32-byte item. */
  function DecodeItems(pieces: seq<string>): (r: Option<seq<Bytes32>>)
    ensures r.Some? ==> |r.value| == |pieces|
  {
    if pieces == [] then Some([])
    else
      match HexToBytes(pieces[0])
      case None => None
      case Some(b) =>
        if |b| != 32 then None
        else
          match DecodeItems(pieces[1..])
          case None => None
          case Some(rest) =>
            var item: Bytes32 := b;
            Some([item] + rest)
  }

  /** Inverse of HexProof: the empty string is the empty proof; otherwise
      every comma-separated piece must be the hex of 32 bytes. */
  function ParseProof(s: string): Option<seq<Bytes32>>
  {
    if s == "" then Some([]) else DecodeItems(Split(s, ','))
  }

  // ---- Join and Split ----

  lemma {:induction false} SplitWithout(x: string, c: char)
    requires c !in x
    ensures Split(x, c) == [x]
    decreases |x|
  {
    if |x| != 0 {
      assert x == [x[0]] + x[1..];
      SplitWithout(x[1..], c);
    }
  }

  lemma {:induction false} SplitPiece(x: string, c: char, t: string)
    requires c !in x
    ensures Split(x + [c] + t, c) == [x] + Split(t, c)
    decreases |x|
  {
    var s := x + [c] + t;
    if |x| == 0 {
      assert s[1..] == t;
    } else {
      assert x == [x[0]] + x[1..];
      assert s[1..] == x[1..] + [c] + t;
      SplitPiece(x[1..], c, t);
    }
  }

  /** Splitting a join on its separator gives the pieces back, provided no
      piece holds the separator. */
  lemma {:induction false} SplitJoin(xs: seq<string>, c: char)
    requires |xs| >= 1
    requires forall k :: 0 <= k < |xs| ==> c !in xs[k]
    ensures Split(Join(xs, [c]), c) == xs
    decreases |xs|
  {
    if |xs| == 1 {
      SplitWithout(xs[0], c);
    } else {
      SplitJoin(xs[1..], c);
      SplitPiece(xs[0], c, Join(xs[1..], [c]));
      assert [xs[0]] + xs[1..] == xs;
    }
  }

  lemma JoinCons(x: string, ys: seq<string>, sep: string)
    requires |ys| >= 1
    ensures Join([x] + ys, sep) == x + sep + Join(ys, sep)
  {
    assert ([x] + ys)[1..] == ys;
  }

  lemma JoinPrepend(a: char, ys: seq<string>, sep: string)
    requires |ys| >= 1
    ensures Join([[a] + ys[0]] + ys[1..], sep) == [a] + Join(ys, sep)
  {
    var r := [[a] + ys[0]] + ys[1..];
    if |ys| > 1 {
      assert r[1..] == ys[1..];
    }
  }

  /** Joining the pieces of a split with the separator gives the string back. */
  lemma {:induction false} JoinSplit(s: string, c: char)
    ensures Join(Split(s, c), [c]) == s
    decreases |s|
  {
    if |s| != 0 {
      var rest := Split(s[1..], c);
      JoinSplit(s[1..], c);
      assert s == [s[0]] + s[1..];
      if s[0] == c {
        assert Split(s, c) == [""] + rest;
        JoinCons("", rest, [c]);
      } else {
        assert Split(s, c) == [[s[0]] + rest[0]] + rest[1..];
        JoinPrepend(s[0], rest, [c]);
      }
    }
  }

  lemma {:induction false} JoinLength(xs: seq<string>, sep: string, width: nat)
    requires |xs| >= 1
    requires forall k :: 0 <= k < |xs| ==> |xs[k]| == width
    ensures |Join(xs, sep)| == width * |xs| + |sep| * (|xs| - 1)
    decreases |xs|
  {
    if |xs| > 1 {
      JoinLength(xs[1..], sep, width);
    }
  }

  lemma {:induction false} JoinCount(xs: seq<string>, c: char)
    requires |xs| >= 1
    requires forall k :: 0 <= k < |xs| ==> c !in xs[k]
    ensures multiset(Join(xs, [c]))[c] == |xs| - 1
    decreases |xs|
  {
    if |xs| > 1 {
      JoinCount(xs[1..], c);
      assert multiset(xs[0]) [c] == 0;
    } else {
      assert multiset(xs[0]) [c] == 0;
    }
  }

  // ---- properties of bytes_to_hex_proof ----

  lemma NoCommaInHex(bytes: seq<u8>)
    ensures ',' !in BytesToHex(bytes)
  {
    var s := BytesToHex(bytes);
    forall i | 0 <= i < |s| ensures s[i] != ',' {
      if i < 2 {
        assert s[i] == "0x"[i];
      }
    }
  }

  lemma NoCommaInItems(items: seq<Bytes32>)
    ensures forall k :: 0 <= k < |items| ==> ',' !in HexItems(items)[k]
  {
    forall k | 0 <= k < |items| ensures ',' !in HexItems(items)[k] {
      NoCommaInHex(items[k]);
    }
  }

  /** No items give the empty string; n items give 66n + (n - 1) characters,
      of which exactly n - 1 are commas. */
  lemma HexProofShape(items: seq<Bytes32>)
    ensures items == [] ==> HexProof(items) == ""
    ensures |items| >= 1 ==> |HexProof(items)| == 66 * |items| + (|items| - 1)
    ensures |items| >= 1 ==> multiset(HexProof(items))[','] == |items| - 1
  {
    if |items| >= 1 {
      JoinLength(HexItems(items), ",", 66);
      NoCommaInItems(items);
      JoinCount(HexItems(items), ',');
    }
  }

  /** Splitting a non-empty proof on ',' gives each item's hex, in order. */
  lemma SplitHexProof(items: seq<Bytes32>)
    requires |items| >= 1
    ensures Split(HexProof(items), ',') == HexItems(items)
    ensures forall k :: 0 <= k < |items| ==> Split(HexProof(items), ',')[k] == BytesToHex(items[k])
  {
    NoCommaInItems(items);
    SplitJoin(HexItems(items), ',');
  }

  lemma {:induction false} DecodeHexItems(items: seq<Bytes32>)
    ensures DecodeItems(HexItems(items)) == Some(items)
    decreases |items|
  {
    if items != [] {
      HexRoundTrip(items[0]);
      assert HexItems(items)[1..] == HexItems(items[1..]);
      DecodeHexItems(items[1..]);
      assert [items[0]] + items[1..] == items;
    }
  }

  lemma {:induction false} DecodedItemsAreHex(pieces: seq<string>, items: seq<Bytes32>)
    requires DecodeItems(pieces) == Some(items)
    ensures pieces == HexItems(items)
    decreases |pieces|
  {
    if pieces != [] {
      var b := HexToBytes(pieces[0]).value;
      HexToBytesIff(pieces[0], b);
      DecodedItemsAreHex(pieces[1..], items[1..]);
      assert HexItems(items)[1..] == HexItems(items[1..]);
      assert pieces == [pieces[0]] + pieces[1..];
    }
  }

  /** Parsing the serialised proof recovers the items. */
  lemma HexProofRoundTrip(items: seq<Bytes32>)
    ensures ParseProof(HexProof(items)) == Some(items)
  {
    if items == [] {
    } else {
      HexProofShape(items);
      SplitHexProof(items);
      DecodeHexItems(items);
    }
  }

  /** The strings that parse are exactly the serialised proofs. */
  lemma ParseProofIff(s: string, items: seq<Bytes32>)
    ensures ParseProof(s) == Some(items) <==> s == HexProof(items)
  {
    if ParseProof(s) == Some(items) && s != "" {
      DecodedItemsAreHex(Split(s, ','), items);
      JoinSplit(s, ',');
    }
    if s == HexProof(items) {
      HexProofRoundTrip(items);
    }
  }
}
