/** Appending a command-line item to an in-memory Zircon boot image.

    An image is a 32-byte container header, whose second word is the length of what follows,
    and a sequence of items: a 32-byte header, whose second word is the payload length, and
    the payload padded to eight bytes. */
module Zbi {
  import opened LittleEndian
  import opened Results
  import opened Segments

  const HEADER_SIZE := 32
  const ALIGNMENT := 8
  const TYPE_CMDLINE := 0x4c44_4d43
  const FLAGS_VERSION := 0x1_0000
  const ITEM_MAGIC := 0xb578_1729
  const ITEM_NO_CRC32 := 0x4a87_e8d6

  function NextMultiple(n: nat): (r: nat)
    ensures r >= n && r % ALIGNMENT == 0 && r < n + ALIGNMENT
  {
    (n + ALIGNMENT - 1) / ALIGNMENT * ALIGNMENT
  }

  function Word(bs: seq<Byte>, at: nat): (v: nat)
    requires at + 4 <= |bs|
  {
    Load(bs[at..at + 4])
  }

  // ----- reading an image

  /** The items of a container, as the bytes they occupy. */
  function Items(bs: seq<Byte>): (r: Option<seq<seq<Byte>>>)
    decreases |bs|
  {
    if bs == [] then Some([])
    else if |bs| < HEADER_SIZE then None
    else
      var n := HEADER_SIZE + NextMultiple(Word(bs, 4));
      if n > |bs| then None else
        match Items(bs[n..])
        case None => None
        case Some(rest) => Some([bs[..n]] + rest)
  }

  predicate IsContainer(zbi: seq<Byte>) {
    |zbi| >= HEADER_SIZE && HEADER_SIZE + Word(zbi, 4) <= |zbi|
  }

  function Contents(zbi: seq<Byte>): (bs: seq<Byte>)
    requires IsContainer(zbi)
  {
    zbi[HEADER_SIZE..HEADER_SIZE + Word(zbi, 4)]
  }

  ghost predicate WellFormed(zbi: seq<Byte>) {
    IsContainer(zbi) && Items(Contents(zbi)).Some?
  }

  function Payload(item: seq<Byte>): (bs: seq<Byte>)
    requires |item| >= HEADER_SIZE && HEADER_SIZE + Word(item, 4) <= |item|
  {
    item[HEADER_SIZE..HEADER_SIZE + Word(item, 4)]
  }

  lemma {:induction false} ItemsConcat(a: seq<Byte>, b: seq<Byte>)
    requires Items(a).Some? && Items(b).Some?
    ensures Items(a + b) == Some(Items(a).value + Items(b).value)
    decreases |a|
  {
    hide NextMultiple, Load;
    if a == [] {
      assert a + b == b;
      assert Items(a).value + Items(b).value == Items(b).value;
    } else {
      var n := HEADER_SIZE + NextMultiple(Word(a, 4));
      assert (a + b)[4..8] == a[4..8];
      assert (a + b)[n..] == a[n..] + b;
      assert (a + b)[..n] == a[..n];
      ItemsConcat(a[n..], b);
      var x, y := Items(a[n..]).value, Items(b).value;
      assert [a[..n]] + (x + y) == ([a[..n]] + x) + y;
    }
  }

  // ----- the new item

  function HeaderWords(payload: seq<Byte>): (ws: seq<nat>) {
    [TYPE_CMDLINE, |payload|, 0, FLAGS_VERSION, 0, 0, ITEM_MAGIC, ITEM_NO_CRC32]
  }

  function StoreAll(ws: seq<nat>): (bs: seq<Byte>)
    ensures |bs| == 4 * |ws|
  {
    if ws == [] then [] else StoreAll(ws[..|ws| - 1]) + Store(ws[|ws| - 1], 4)
  }

  function Zeros(n: nat): (bs: seq<Byte>)
    ensures |bs| == n
  {
    seq(n, _ => 0)
  }

  function Item(payload: seq<Byte>): (bs: seq<Byte>)
    ensures |bs| == HEADER_SIZE + NextMultiple(|payload|)
  {
    StoreAll(HeaderWords(payload)) + payload + Zeros(NextMultiple(|payload|) - |payload|)
  }

  lemma {:induction false} StoredWord(ws: seq<nat>, k: nat)
    requires k < |ws| && ws[k] < U32_LIMIT
    ensures Word(StoreAll(ws), 4 * k) == ws[k]
  {
    hide Store, Load, Pow256;
    var n := |ws| - 1;
    if k == n {
      Pow256Values();
      LoadStore(ws[n], 4);
      assert StoreAll(ws)[4 * k..4 * k + 4] == Store(ws[n], 4);
    } else {
      StoredWord(ws[..n], k);
      assert StoreAll(ws)[4 * k..4 * k + 4] == StoreAll(ws[..n])[4 * k..4 * k + 4];
    }
  }

  lemma OneItem(bs: seq<Byte>)
    requires |bs| >= HEADER_SIZE && HEADER_SIZE + NextMultiple(Word(bs, 4)) == |bs|
    ensures Items(bs) == Some([bs])
  {
    hide NextMultiple, Load;
    assert bs[|bs|..] == [] && bs[..|bs|] == bs;
    assert Items([]) == Some([]);
    assert [bs] + [] == [bs];
  }

  /** A reader of the item finds its type, flags and magic numbers, and this payload. */
  ghost predicate IsCommandLine(item: seq<Byte>, payload: seq<Byte>) {
    && |item| >= HEADER_SIZE && HEADER_SIZE + Word(item, 4) <= |item|
    && Word(item, 0) == TYPE_CMDLINE && Word(item, 4) == |payload| && Word(item, 12) == FLAGS_VERSION
    && Word(item, 8) == 0 && Word(item, 16) == 0 && Word(item, 20) == 0
    && Word(item, 24) == ITEM_MAGIC && Word(item, 28) == ITEM_NO_CRC32
    && Payload(item) == payload
    && |item| % ALIGNMENT == 0 && forall i :: HEADER_SIZE + |payload| <= i < |item| ==> item[i] == 0
  }

  /** The appended item is one well-formed command-line item that carries the payload. */
  lemma ItemParses(payload: seq<Byte>)
    requires |payload| < U32_LIMIT
    ensures Items(Item(payload)) == Some([Item(payload)])
    ensures IsCommandLine(Item(payload), payload)
  {
    hide Items, NextMultiple, Store, Load, StoreAll;
    var bs, ws := Item(payload), HeaderWords(payload);
    StoredWord(ws, 0);
    StoredWord(ws, 1);
    StoredWord(ws, 2);
    StoredWord(ws, 3);
    StoredWord(ws, 4);
    StoredWord(ws, 5);
    StoredWord(ws, 6);
    StoredWord(ws, 7);
    assert bs[..32] == StoreAll(ws);
    assert bs[0..4] == StoreAll(ws)[0..4];
    assert bs[4..8] == StoreAll(ws)[4..8];
    assert bs[8..12] == StoreAll(ws)[8..12];
    assert bs[12..16] == StoreAll(ws)[12..16];
    assert bs[16..20] == StoreAll(ws)[16..20];
    assert bs[20..24] == StoreAll(ws)[20..24];
    assert bs[24..28] == StoreAll(ws)[24..28];
    assert bs[28..32] == StoreAll(ws)[28..32];
    OneItem(bs);
  }

  // ----- the result of an append

  /** The image after appending: trailing bytes behind the container are dropped. */
  function Appended(zbi: seq<Byte>, payload: seq<Byte>): (r: seq<Byte>)
    requires IsContainer(zbi)
  {
    zbi[..4] + Store(Word(zbi, 4) + HEADER_SIZE + NextMultiple(|payload|), 4)
    + zbi[8..HEADER_SIZE] + Contents(zbi) + Item(payload)
  }

  ghost predicate Fits(zbi: seq<Byte>, payload: seq<Byte>)
    requires IsContainer(zbi)
  {
    Word(zbi, 4) + HEADER_SIZE + NextMultiple(|payload|) < U32_LIMIT
  }

  /** Old items byte for byte, then one command-line item that carries the payload; the file is
      exactly the container, and it is ready for another append. */
  ghost predicate Extended(zbi: seq<Byte>, r: seq<Byte>, payload: seq<Byte>)
    requires WellFormed(zbi)
  {
    && WellFormed(r)
    && |r| == HEADER_SIZE + Word(r, 4)
    && Items(Contents(r)) == Some(Items(Contents(zbi)).value + [Item(payload)])
    && IsCommandLine(Item(payload), payload)
    && r[..4] == zbi[..4] && r[8..HEADER_SIZE] == zbi[8..HEADER_SIZE]
  }

  lemma AppendedParses(zbi: seq<Byte>, payload: seq<Byte>)
    requires WellFormed(zbi) && Fits(zbi, payload)
    ensures Extended(zbi, Appended(zbi, payload), payload)
  {
    hide Items, Item, IsCommandLine, NextMultiple, Store, Load, Pow256;
    var r, n := Appended(zbi, payload), Word(zbi, 4) + HEADER_SIZE + NextMultiple(|payload|);
    Pow256Values();
    LoadStore(n, 4);
    assert r[4..8] == Store(n, 4);
    assert r[HEADER_SIZE..] == Contents(zbi) + Item(payload);
    assert Contents(r) == r[HEADER_SIZE..];
    ItemParses(payload);
    ItemsConcat(Contents(zbi), Item(payload));
  }

  /** The length is refused exactly when it would not survive its 32-bit field. */
  lemma FitsExact(zbi: seq<Byte>, payload: seq<Byte>)
    requires IsContainer(zbi)
    ensures var r := Appended(zbi, payload);
            |r| >= HEADER_SIZE && (Fits(zbi, payload) <==> HEADER_SIZE + Word(r, 4) == |r|)
  {
    hide Item, NextMultiple, Store, Load, Pow256;
    var r, n := Appended(zbi, payload), Word(zbi, 4) + HEADER_SIZE + NextMultiple(|payload|);
    Pow256Values();
    LoadStore(n, 4);
    assert r[4..8] == Store(n, 4);
    assert |r| == HEADER_SIZE + n;
  }

  /** Repeated appends: the original items, then one item per payload, in order. */
  function AppendAll(zbi: seq<Byte>, payloads: seq<seq<Byte>>): (r: Option<seq<Byte>>)
    requires IsContainer(zbi)
    decreases |payloads|
  {
    if payloads == [] then Some(zbi)
    else if Word(zbi, 4) + HEADER_SIZE + NextMultiple(|payloads[0]|) >= U32_LIMIT then None
    else
      var r := Appended(zbi, payloads[0]);
      if IsContainer(r) then AppendAll(r, payloads[1..]) else None
  }

  function AddedLength(payloads: seq<seq<Byte>>): (n: nat) {
    if payloads == [] then 0 else HEADER_SIZE + NextMultiple(|payloads[0]|) + AddedLength(payloads[1..])
  }

  /** They succeed exactly when the final length fits. */
  lemma {:induction false} AppendAllFits(zbi: seq<Byte>, payloads: seq<seq<Byte>>)
    requires WellFormed(zbi)
    ensures AppendAll(zbi, payloads).Some? <==> payloads == [] || Word(zbi, 4) + AddedLength(payloads) < U32_LIMIT
    decreases |payloads|
  {
    hide Items, Item, IsCommandLine, NextMultiple, Appended;
    if payloads != [] && Fits(zbi, payloads[0]) {
      AppendedParses(zbi, payloads[0]);
      AppendedLength(zbi, payloads[0]);
      AppendAllFits(Appended(zbi, payloads[0]), payloads[1..]);
    }
  }

  lemma AppendedLength(zbi: seq<Byte>, payload: seq<Byte>)
    requires IsContainer(zbi)
    ensures |Appended(zbi, payload)| == HEADER_SIZE + Word(zbi, 4) + HEADER_SIZE + NextMultiple(|payload|)
  {
  }

  lemma {:induction false} AppendAllParses(zbi: seq<Byte>, payloads: seq<seq<Byte>>)
    requires WellFormed(zbi) && AppendAll(zbi, payloads).Some?
    ensures var r := AppendAll(zbi, payloads).value;
            && WellFormed(r)
            && Items(Contents(r)) == Some(Items(Contents(zbi)).value
                                          + seq(|payloads|, i requires 0 <= i < |payloads| => Item(payloads[i])))
    decreases |payloads|
  {
    hide Items, Item, IsCommandLine, NextMultiple, Appended;
    var tail := seq(|payloads|, i requires 0 <= i < |payloads| => Item(payloads[i]));
    if payloads == [] {
      assert Items(Contents(zbi)).value + tail == Items(Contents(zbi)).value;
    } else {
      AppendedParses(zbi, payloads[0]);
      AppendAllParses(Appended(zbi, payloads[0]), payloads[1..]);
      assert tail == [Item(payloads[0])]
                     + seq(|payloads[1..]|, i requires 0 <= i < |payloads[1..]| => Item(payloads[1..][i]));
      var x, y := Items(Contents(zbi)).value, tail[1..];
      assert (x + [Item(payloads[0])]) + y == x + tail;
    }
  }

  // ----- choosing the payload from the kernel command line

  function Text(s: string): (bs: seq<Byte>)
    ensures |bs| == |s|
  {
    seq(|s|, i requires 0 <= i < |s| => s[i] as int % 256)
  }

  const COLON: Byte := 58
  const COMMA: Byte := 44

  predicate IsSpace(b: Byte) {
    9 <= b <= 13 || b == 32
  }

  function TrimStart(s: seq<Byte>): (r: seq<Byte>) {
    if s != [] && IsSpace(s[0]) then TrimStart(s[1..]) else s
  }

  function TrimEnd(s: seq<Byte>): (r: seq<Byte>) {
    if s != [] && IsSpace(s[|s| - 1]) then TrimEnd(s[..|s| - 1]) else s
  }

  function FilterOf(option: seq<Byte>): (r: Option<seq<Byte>>) {
    var trimmed, prefix := TrimEnd(TrimStart(option)), Text("core-tests=");
    if prefix <= trimmed then Some(trimmed[|prefix|..]) else None
  }

  ghost predicate AllSpace(s: seq<Byte>) {
    forall i :: 0 <= i < |s| ==> IsSpace(s[i])
  }

  lemma {:induction false} TrimStartCuts(s: seq<Byte>)
    returns (pre: seq<Byte>)
    ensures s == pre + TrimStart(s) && AllSpace(pre)
    ensures TrimStart(s) != [] ==> !IsSpace(TrimStart(s)[0])
  {
    pre := [];
    if s != [] && IsSpace(s[0]) {
      var rest := TrimStartCuts(s[1..]);
      pre := [s[0]] + rest;
    }
  }

  lemma {:induction false} TrimEndCuts(s: seq<Byte>)
    returns (post: seq<Byte>)
    ensures s == TrimEnd(s) + post && AllSpace(post)
    ensures var t := TrimEnd(s); t != [] ==> !IsSpace(t[|t| - 1])
  {
    post := [];
    var n := |s| - 1;
    if s != [] && IsSpace(s[n]) {
      var rest := TrimEndCuts(s[..n]);
      post := rest + [s[n]];
      assert s == s[..n] + [s[n]];
    }
  }

  lemma {:induction false} TrimStartStops(pre: seq<Byte>, s: seq<Byte>)
    requires AllSpace(pre) && s != [] && !IsSpace(s[0])
    ensures TrimStart(pre + s) == s
  {
    if pre == [] {
      assert pre + s == s;
    } else {
      assert (pre + s)[1..] == pre[1..] + s;
      TrimStartStops(pre[1..], s);
    }
  }

  lemma {:induction false} TrimEndStops(s: seq<Byte>, post: seq<Byte>)
    requires AllSpace(post) && s != [] && !IsSpace(s[|s| - 1])
    ensures TrimEnd(s + post) == s
  {
    if post == [] {
      assert s + post == s;
    } else {
      var n := |post| - 1;
      assert (s + post)[..|s| + n] == s + post[..n];
      TrimEndStops(s, post[..n]);
    }
  }

  /** The option reads `core-tests=` and the filter, with white space around. */
  ghost predicate Sets(option: seq<Byte>, filter: seq<Byte>, pre: seq<Byte>, post: seq<Byte>) {
    && option == pre + (Text("core-tests=") + filter) + post && AllSpace(pre) && AllSpace(post)
    && (filter != [] ==> !IsSpace(filter[|filter| - 1]))
  }

  lemma PrefixText()
    ensures var prefix := Text("core-tests=");
            |prefix| == 11 && !IsSpace(prefix[0]) && !IsSpace(prefix[10])
  {
  }

  /** An option sets a filter exactly when it has that form. */
  lemma FilterExact(option: seq<Byte>, filter: seq<Byte>)
    ensures FilterOf(option) == Some(filter) <==> exists pre, post :: Sets(option, filter, pre, post)
  {
    hide TrimStart, TrimEnd, IsSpace, Text;
    PrefixText();
    var prefix := Text("core-tests=");
    if FilterOf(option) == Some(filter) {
      var pre := TrimStartCuts(option);
      var post := TrimEndCuts(TrimStart(option));
      assert TrimEnd(TrimStart(option)) == prefix + filter;
      assert option == pre + ((prefix + filter) + post);
      assert option == pre + (prefix + filter) + post;
      assert Sets(option, filter, pre, post);
    }
    if pre, post :| Sets(option, filter, pre, post) {
      var core := prefix + filter;
      assert core[0] == prefix[0];
      assert core[|core| - 1] == if filter == [] then prefix[10] else filter[|filter| - 1];
      assert option == pre + (core + post);
      TrimStartStops(pre, core + post);
      TrimEndStops(core, post);
      assert core[|prefix|..] == filter;
    }
  }

  function LastFilter(options: seq<seq<Byte>>): (r: Option<seq<Byte>>) {
    if options == [] then None
    else if FilterOf(options[|options| - 1]).Some? then FilterOf(options[|options| - 1])
    else LastFilter(options[..|options| - 1])
  }

  /** The option that counts is the last one that sets a filter. */
  lemma {:induction false} LastFilterIsLast(options: seq<seq<Byte>>)
    ensures LastFilter(options).None? <==> forall i :: 0 <= i < |options| ==> FilterOf(options[i]).None?
    ensures LastFilter(options).Some? ==>
              exists i :: 0 <= i < |options| && FilterOf(options[i]) == LastFilter(options)
                          && forall j :: i < j < |options| ==> FilterOf(options[j]).None?
  {
    hide FilterOf;
    if options != [] {
      var n := |options| - 1;
      if FilterOf(options[n]).None? {
        LastFilterIsLast(options[..n]);
        if LastFilter(options[..n]).Some? {
          var i :| 0 <= i < n && FilterOf(options[..n][i]) == LastFilter(options[..n])
                   && forall j :: i < j < n ==> FilterOf(options[..n][j]).None?;
          assert options[i] == options[..n][i];
          assert forall j :: i < j < n ==> options[j] == options[..n][j];
        } else {
          assert forall j :: 0 <= j < n ==> options[j] == options[..n][j];
        }
      }
    }
  }

  function Replace(s: seq<Byte>, a: Byte, b: Byte): (r: seq<Byte>) {
    seq(|s|, i requires 0 <= i < |s| => if s[i] == a then b else s[i])
  }

  function PayloadFor(filter: seq<Byte>): (r: seq<Byte>) {
    if filter == Text("-l") || filter == Text("--gtest_list_tests") then Text("--gtest_list_tests")
    else Text("--gtest_filter=") + Replace(filter, COMMA, COLON) + Text(" --gtest_shuffle=false")
  }

  /** The two ways to ask for a list of the tests. */
  lemma ListPayload(filter: seq<Byte>)
    requires filter == Text("-l") || filter == Text("--gtest_list_tests")
    ensures PayloadFor(filter) == Text("--gtest_list_tests")
  {
  }

  lemma {:induction false} ReplaceSplits(s: seq<Byte>)
    requires COLON !in s
    ensures Split(Replace(s, COMMA, COLON), COLON) == Split(s, COMMA)
  {
    var r := Replace(s, COMMA, COLON);
    if s != [] {
      ReplaceSplits(s[1..]);
      assert r[1..] == Replace(s[1..], COMMA, COLON);
    }
  }

  lemma {:induction false} FilterHasNoColon(options: seq<seq<Byte>>)
    requires forall i :: 0 <= i < |options| ==> COLON !in options[i]
    ensures LastFilter(options).Some? ==> COLON !in LastFilter(options).value
  {
    hide FilterOf, Text;
    if options != [] {
      var option := options[|options| - 1];
      if FilterOf(option).Some? {
        var filter := FilterOf(option).value;
        FilterExact(option, filter);
        var pre, post :| Sets(option, filter, pre, post);
        forall b | b in filter
          ensures b in option
        {
          assert b in Text("core-tests=") + filter;
          assert b in pre + (Text("core-tests=") + filter);
        }
      } else {
        FilterHasNoColon(options[..|options| - 1]);
      }
    }
  }

  /** Any other filter is handed on between the two gtest options, its comma-separated patterns
      now separated by colons. */
  lemma FilterPayload(cmdline: seq<Byte>)
    requires LastFilter(Split(cmdline, COLON)).Some?
    ensures var filter := LastFilter(Split(cmdline, COLON)).value;
            filter != Text("-l") && filter != Text("--gtest_list_tests") ==>
              exists patterns ::
                && PayloadFor(filter) == Text("--gtest_filter=") + patterns + Text(" --gtest_shuffle=false")
                && Split(patterns, COLON) == Split(filter, COMMA)
  {
    hide Text, FilterOf, Split, Replace;
    var filter := LastFilter(Split(cmdline, COLON)).value;
    SplitParts(cmdline, COLON);
    FilterHasNoColon(Split(cmdline, COLON));
    ReplaceSplits(filter);
  }

  // ----- the append, in place

  datatype Panic = InvalidContainer | Truncated | LengthOverflow

  function Overwrite(z: seq<Byte>, at: nat, bs: seq<Byte>): (r: seq<Byte>)
    requires at + |bs| <= |z|
  {
    z[..at] + bs + z[at + |bs|..]
  }

  method WriteWords(image: seq<Byte>, at: nat, words: seq<nat>) returns (z: seq<Byte>)
    requires at + 4 * |words| <= |image|
    ensures z == Overwrite(image, at, StoreAll(words))
  {
    hide Store;
    z := image;
    for i := 0 to |words|
      invariant z == Overwrite(image, at, StoreAll(words[..i]))
    {
      assert words[..i + 1][..i] == words[..i];
      z := Overwrite(z, at + 4 * i, Store(words[i], 4));
    }
    assert words[..|words|] == words;
  }

  /** Write the item behind the container, word by word, and then the new length. */
  method AppendItem(image: seq<Byte>, payload: seq<Byte>) returns (zbi: seq<Byte>)
    requires IsContainer(image)
    ensures zbi == Appended(image, payload)
  {
    hide Store, Load, NextMultiple, Word, StoreAll;
    var container := Word(image, 4);
    var at := HEADER_SIZE + container;
    var itemLen := HEADER_SIZE + NextMultiple(|payload|);
    var kept := image[..at];
    zbi := kept + Zeros(itemLen);
    var words := HeaderWords(payload);
    zbi := WriteWords(zbi, at, words);
    assert zbi == kept + StoreAll(words) + Zeros(itemLen - HEADER_SIZE);
    zbi := Overwrite(zbi, at + HEADER_SIZE, payload);
    assert zbi == kept + Item(payload);
    zbi := Overwrite(zbi, 4, Store(container + itemLen, 4));
    SameContainer(image);
  }

  lemma SameContainer(image: seq<Byte>)
    requires IsContainer(image)
    ensures var at := HEADER_SIZE + Word(image, 4);
            image[..at][8..] == image[8..HEADER_SIZE] + Contents(image) && image[..at][..4] == image[..4]
  {
    hide Load;
  }

  method AppendCoreTestFilter(image: seq<Byte>, cmdline: seq<Byte>) returns (r: Result<seq<Byte>, Panic>)
    ensures match LastFilter(Split(cmdline, COLON))
            case None => r == Ok(image)
            case Some(filter) =>
              if |image| < HEADER_SIZE then r == Err(InvalidContainer)
              else if !IsContainer(image) then r == Err(Truncated)
              else if !Fits(image, PayloadFor(filter)) then r == Err(LengthOverflow)
              else
                && r == Ok(Appended(image, PayloadFor(filter)))
                && (WellFormed(image) ==> Extended(image, r.value, PayloadFor(filter)))
  {
    hide Items, Item, Appended, PayloadFor, Load;
    match LastFilter(Split(cmdline, COLON))
    case None => r := Ok(image);
    case Some(filter) =>
      var payload := PayloadFor(filter);
      if |image| < HEADER_SIZE {
        return Err(InvalidContainer);
      }
      if HEADER_SIZE + Word(image, 4) > |image| {
        return Err(Truncated);
      }
      if Word(image, 4) + HEADER_SIZE + NextMultiple(|payload|) >= U32_LIMIT {
        return Err(LengthOverflow);
      }
      var zbi := AppendItem(image, payload);
      if WellFormed(image) {
        AppendedParses(image, payload);
      }
      r := Ok(zbi);
  }
}
