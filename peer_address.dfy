/** Peer-address and config validation (`validateAddress`, `validateConfig`)
    and the socket address formed for a routed peer. A config entry is
    "<IPv4> <port>"; one entry per line. */
module PeerAddress {
  import opened Wrappers
  import opened JsBuiltins

  /** One block of the host: `parseInt(block, 10)` lies in [0, 255]. NaN
      (`None`) fails both comparisons. */
  predicate OctetBlock(block: string)
    ensures OctetBlock(block) ==> exists i :: 0 <= i < |block| && IsDigit(block[i])
  {
    var v := ParseInt(block);
    v.Some? && 0 <= v.value <= 255
  }

  /** `validateAddress(entry)`: split on every space; at least two fields; the
      first field splits on '.' into exactly four blocks, each an octet. The
      fields after the first are never inspected. */
  function ValidateAddress(entry: string): (ok: bool)
    ensures ok ==> ' ' in entry
  {
    var ipPort := Split(entry, ' ');
    var blocks := Split(ipPort[0], '.');
    if |ipPort| < 2 then false
    else if |blocks| == 4 then forall i | 0 <= i < |blocks| :: OctetBlock(blocks[i])
    else false
  }

  /** The dotted host text "a.b.c.d" of four blocks. */
  function Host(blocks: seq<string>): string
    requires |blocks| == 4
  {
    blocks[0] + "." + blocks[1] + "." + blocks[2] + "." + blocks[3]
  }

  /** `entry` reads "a.b.c.d port": four octet blocks free of dots and spaces,
      one space, and anything at all after it. */
  ghost predicate Shaped(entry: string, blocks: seq<string>, port: string)
  {
    && |blocks| == 4
    && entry == Host(blocks) + " " + port
    && (forall i :: 0 <= i < 4 ==> '.' !in blocks[i] && ' ' !in blocks[i])
    && (forall i :: 0 <= i < 4 ==> OctetBlock(blocks[i]))
  }

  /** How an entry's verdict follows from its fields and its host's blocks. */
  lemma ValidateByParts(entry: string, host: string, blocks: seq<string>)
    requires |Split(entry, ' ')| >= 2 && Split(entry, ' ')[0] == host
    requires Split(host, '.') == blocks
    ensures ValidateAddress(entry) <==> |blocks| == 4 && forall i :: 0 <= i < 4 ==> OctetBlock(blocks[i])
  {
  }

  /** An entry is accepted exactly when it has the shape "a.b.c.d port". */
  lemma ValidateAddressIff(entry: string)
    ensures ValidateAddress(entry) <==> exists blocks, port :: Shaped(entry, blocks, port)
  {
    if ValidateAddress(entry) {
      var ipPort := Split(entry, ' ');
      var host := ipPort[0];
      var blocks := Split(host, '.');
      ValidateByParts(entry, host, blocks);
      var port := Join(ipPort[1..], " ");
      JoinSplit(entry, ' ');
      JoinTwo(host, ipPort[1..], " ");
      assert ipPort == [host] + ipPort[1..];
      assert entry == host + " " + port;
      HostOfSplit(host, blocks);
      assert Shaped(entry, blocks, port);
    }
    if exists blocks, port :: Shaped(entry, blocks, port) {
      var blocks, port :| Shaped(entry, blocks, port);
      AcceptsShape(entry, blocks, port);
    }
  }

  /** The four blocks of a space-free host put back together give the host. */
  lemma HostOfSplit(host: string, blocks: seq<string>)
    requires ' ' !in host && blocks == Split(host, '.') && |blocks| == 4
    ensures host == Host(blocks)
    ensures forall i :: 0 <= i < 4 ==> '.' !in blocks[i] && ' ' !in blocks[i]
  {
    HostJoin(host, blocks);
    BlocksFree(blocks);
  }

  lemma HostJoin(host: string, blocks: seq<string>)
    requires blocks == Split(host, '.') && |blocks| == 4
    ensures host == Host(blocks)
  {
    JoinSplit(host, '.');
    assert blocks == [blocks[0], blocks[1], blocks[2], blocks[3]];
    JoinFour(blocks[0], blocks[1], blocks[2], blocks[3]);
  }

  lemma BlocksFree(blocks: seq<string>)
    requires |blocks| == 4 && ' ' !in Host(blocks)
    ensures forall i :: 0 <= i < 4 ==> ' ' !in blocks[i]
  {
    forall i | 0 <= i < 4
      ensures ' ' !in blocks[i]
    {
      InHost(blocks, i, ' ');
    }
  }

  /** A character of any block is a character of the host. */
  lemma InHost(blocks: seq<string>, i: int, c: char)
    requires |blocks| == 4 && 0 <= i < 4
    ensures c in blocks[i] ==> c in Host(blocks)
  {
    var h := Host(blocks);
    assert h == blocks[0] + "." + blocks[1] + "." + blocks[2] + "." + blocks[3];
  }

  /** The fields of an entry "host port" when the host has no space. */
  lemma EntryFields(host: string, port: string)
    requires ' ' !in host
    ensures Split(host + " " + port, ' ') == [host] + Split(port, ' ')
  {
    SplitAfterField(host, ' ', port);
    assert host + " " + port == host + [' '] + port;
  }

  lemma AcceptsShape(entry: string, blocks: seq<string>, port: string)
    requires Shaped(entry, blocks, port)
    ensures ValidateAddress(entry)
  {
    var host := Host(blocks);
    HostBlocks(blocks);
    EntryFields(host, port);
    ValidateByParts(entry, host, blocks);
  }

  /** The host of four dot-free blocks splits back into those blocks. */
  lemma HostBlocks(blocks: seq<string>)
    requires |blocks| == 4
    requires forall i :: 0 <= i < 4 ==> '.' !in blocks[i] && ' ' !in blocks[i]
    ensures Split(Host(blocks), '.') == blocks
    ensures ' ' !in Host(blocks)
  {
    assert blocks == [blocks[0], blocks[1], blocks[2], blocks[3]];
    JoinFour(blocks[0], blocks[1], blocks[2], blocks[3]);
    SplitJoin(blocks, '.');
  }

  lemma JoinFour(a: string, b: string, c: string, d: string)
    ensures Join([a, b, c, d], ".") == a + "." + b + "." + c + "." + d
  {
    JoinTwo(c, [d], ".");
    JoinTwo(b, [c, d], ".");
    JoinTwo(a, [b, c, d], ".");
  }

  lemma JoinTwo(x: string, rest: seq<string>, sep: string)
    requires |rest| > 0
    ensures Join([x] + rest, sep) == x + sep + Join(rest, sep)
  {
    assert ([x] + rest)[1..] == rest;
  }

  /** The numerals of four numbers, as the blocks of a host. */
  function Numerals(a: nat, b: nat, c: nat, d: nat): (r: seq<string>)
    ensures |r| == 4
  {
    [Decimal(a), Decimal(b), Decimal(c), Decimal(d)]
  }

  /** A numeral is an octet block exactly when its number is at most 255. */
  lemma OctetNumeral(n: nat)
    ensures OctetBlock(Decimal(n)) <==> n <= 255
  {
    ParseDecimal(n, []);
    assert Decimal(n) + [] == Decimal(n);
  }

  lemma NumeralBlocksFree(a: nat, b: nat, c: nat, d: nat)
    ensures forall i :: 0 <= i < 4 ==> '.' !in Numerals(a, b, c, d)[i] && ' ' !in Numerals(a, b, c, d)[i]
  {
    var ns := Numerals(a, b, c, d);
    forall i | 0 <= i < 4
      ensures '.' !in ns[i] && ' ' !in ns[i]
    {
      assert forall j :: 0 <= j < |ns[i]| ==> IsDigit(ns[i][j]);
    }
  }

  /** Four numbers in [0, 255] and any port text make a valid entry. */
  lemma AcceptsOctets(a: nat, b: nat, c: nat, d: nat, port: string)
    requires a <= 255 && b <= 255 && c <= 255 && d <= 255
    ensures ValidateAddress(Host(Numerals(a, b, c, d)) + " " + port)
  {
    var ns := Numerals(a, b, c, d);
    NumeralBlocksFree(a, b, c, d);
    NumeralOctets(a, b, c, d);
    FourHold(ns, OctetBlock);
    AcceptsShape(Host(ns) + " " + port, ns, port);
  }

  lemma NumeralOctets(a: nat, b: nat, c: nat, d: nat)
    requires a <= 255 && b <= 255 && c <= 255 && d <= 255
    ensures var ns := Numerals(a, b, c, d);
            OctetBlock(ns[0]) && OctetBlock(ns[1]) && OctetBlock(ns[2]) && OctetBlock(ns[3])
  {
    var ns := Numerals(a, b, c, d);
    OctetAt(ns, 0, a);
    OctetAt(ns, 1, b);
    OctetAt(ns, 2, c);
    OctetAt(ns, 3, d);
  }

  lemma FourHold(ns: seq<string>, p: string -> bool)
    requires |ns| == 4 && p(ns[0]) && p(ns[1]) && p(ns[2]) && p(ns[3])
    ensures forall i :: 0 <= i < 4 ==> p(ns[i])
  {
    forall i | 0 <= i < 4
      ensures p(ns[i])
    {
      if i == 0 {} else if i == 1 {} else if i == 2 {} else {}
    }
  }

  lemma OctetAt(ns: seq<string>, k: nat, n: nat)
    requires k < |ns| && ns[k] == Decimal(n) && n <= 255
    ensures OctetBlock(ns[k])
  {
    OctetNumeral(n);
  }

  /** A block above 255 makes the entry invalid, whichever block it is. */
  lemma RejectsLargeBlock(a: nat, b: nat, c: nat, d: nat, port: string)
    requires 255 < a || 255 < b || 255 < c || 255 < d
    ensures !ValidateAddress(Host(Numerals(a, b, c, d)) + " " + port)
  {
    var blocks := Numerals(a, b, c, d);
    var host := Host(blocks);
    NumeralBlocksFree(a, b, c, d);
    HostBlocks(blocks);
    EntryFields(host, port);
    ValidateByParts(host + " " + port, host, blocks);
    if 255 < a {
      OctetNumeral(a);
      assert !OctetBlock(blocks[0]);
    } else if 255 < b {
      OctetNumeral(b);
      assert !OctetBlock(blocks[1]);
    } else if 255 < c {
      OctetNumeral(c);
      assert !OctetBlock(blocks[2]);
    } else {
      OctetNumeral(d);
      assert !OctetBlock(blocks[3]);
    }
  }

  /** A leading space leaves an empty host, which is rejected. */
  lemma RejectsLeadingSpace(rest: string)
    ensures !ValidateAddress(" " + rest)
  {
    SplitAfterField("", ' ', rest);
    assert " " + rest == "" + [' '] + rest;
  }

  /** "192.168.1.1 4000" is a valid entry. */
  lemma AcceptsExample()
    ensures ValidateAddress("192.168.1.1 4000")
  {
    ExampleNumerals();
    assert Host(["192", "168", "1", "1"]) + " " + "4000" == "192.168.1.1 4000";
    AcceptsOctets(192, 168, 1, 1, "4000");
  }

  /** "192.168.1.999 4000" is not: its last block is above 255. */
  lemma RejectsExample()
    ensures !ValidateAddress("192.168.1.999 4000")
  {
    ExampleNumerals();
    assert Host(["192", "168", "1", "999"]) + " " + "4000" == "192.168.1.999 4000";
    RejectsLargeBlock(192, 168, 1, 999, "4000");
  }

  lemma ExampleNumerals()
    ensures Numerals(192, 168, 1, 1) == ["192", "168", "1", "1"]
    ensures Numerals(192, 168, 1, 999) == ["192", "168", "1", "999"]
  {
    assert Decimal(192) == "192" && Decimal(168) == "168";
    assert Decimal(1) == "1" && Decimal(999) == "999";
  }

  /** parseInt reads a block only up to its first non-digit, so text after
      the number does not matter: "12x" passes as 12, "300x" fails as 300. */
  lemma OctetNumeralWithJunk(n: nat, junk: string)
    requires junk == [] || !IsDigit(junk[0])
    ensures OctetBlock(Decimal(n) + junk) <==> n <= 255
  {
    ParseDecimal(n, junk);
  }

  /** A signed block fails unless its number is zero: "-1" is below 0, but
      "-0" is negative zero, which passes both comparisons. */
  lemma NegativeBlock(n: nat, junk: string)
    requires junk == [] || !IsDigit(junk[0])
    ensures OctetBlock("-" + (Decimal(n) + junk)) <==> n == 0
  {
    ParseNegative(n, junk);
  }

  /** White space before a block is skipped. */
  lemma OctetBlockSkipsWhiteSpace(w: string, block: string)
    requires forall i :: 0 <= i < |w| ==> IsWhiteSpace(w[i])
    ensures OctetBlock(w + block) == OctetBlock(block)
  {
    ParseSkipsWhiteSpace(w, block);
  }

  predicate IsInvalid(peer: string)
  {
    !ValidateAddress(peer)
  }

  predicate NonEmpty(peer: string)
  {
    |peer| > 0
  }

  /** The verdict both `validateConfig`s end with: `false` (`None`) when some
      peer fails `validateAddress`, otherwise the peers themselves. */
  function CheckPeers(peers: seq<string>): (r: Option<seq<string>>)
    ensures r.Some? <==> forall i :: 0 <= i < |peers| ==> ValidateAddress(peers[i])
    ensures r.Some? ==> r.value == peers
  {
    var invalidPeers := Filter(peers, IsInvalid);
    FilterEmpty(peers, IsInvalid);
    if |invalidPeers| > 0 then None else Some(peers)
  }

  /** `validateConfig` of client.js applied to the file's text; `None` stands
      for the `false` it returns. Every line, empty ones included, must be a
      valid entry; the accepted lines are the text cut at its newlines,
      unchanged and in order. */
  function ValidateConfig(contents: string): (r: Option<seq<string>>)
    ensures r.Some? <==> forall line :: line in Split(contents, '\n') ==> ValidateAddress(line)
    ensures r.Some? ==> Join(r.value, "\n") == contents
    ensures r.Some? ==> forall i :: 0 <= i < |r.value| ==> '\n' !in r.value[i] && ValidateAddress(r.value[i])
  {
    JoinSplit(contents, '\n');
    CheckPeers(Split(contents, '\n'))
  }

  /** A trailing newline leaves an empty last line, so the whole config fails. */
  lemma TrailingNewlineRejected(contents: string)
    ensures ValidateConfig(contents + "\n") == None
  {
    SplitTrailing(contents, '\n');
    assert "" in Split(contents + "\n", '\n');
  }

  /** An empty file is one empty line, so it fails too. */
  lemma EmptyConfigRejected()
    ensures ValidateConfig("") == None
  {
    assert "" in Split("", '\n');
  }

  /** `validateConfig` of eval/test_client.js: empty lines are dropped first;
      the rest must all be valid, and come back in their original order. */
  function ValidateConfigSkippingEmpty(contents: string): (r: Option<seq<string>>)
    ensures r.Some? <==> forall line :: line in Split(contents, '\n') && line != "" ==> ValidateAddress(line)
    ensures r.Some? ==> r.value == Filter(Split(contents, '\n'), NonEmpty)
  {
    var peers := Filter(Split(contents, '\n'), NonEmpty);
    assert forall line :: line in Split(contents, '\n') && line != "" <==> line in peers;
    CheckPeers(peers)
  }

  /** With empty lines dropped, a trailing newline changes nothing. */
  lemma SkippingIgnoresTrailingNewline(contents: string)
    ensures ValidateConfigSkippingEmpty(contents + "\n") == ValidateConfigSkippingEmpty(contents)
  {
    var lines := Split(contents, '\n');
    assert Filter(Split(contents + "\n", '\n'), NonEmpty) == Filter(lines, NonEmpty) by {
      SplitTrailing(contents, '\n');
      FilterAppend(lines, [""], NonEmpty);
      assert Filter([""], NonEmpty) == [];
    }
  }

  /** Whatever the strict check accepts, the skipping one accepts unchanged. */
  lemma StrictAcceptedIsSkippingAccepted(contents: string)
    requires ValidateConfig(contents).Some?
    ensures ValidateConfigSkippingEmpty(contents) == ValidateConfig(contents)
  {
    var lines := Split(contents, '\n');
    assert forall i :: 0 <= i < |lines| ==> NonEmpty(lines[i]) by {
      forall i | 0 <= i < |lines| ensures NonEmpty(lines[i]) {
        assert lines[i] in lines;
      }
    }
    FilterAll(lines, NonEmpty);
  }

  /** The socket address of a valid peer id: "http://", then the id split
      at its spaces and joined again with colons; `None` where the source
      terminates the process instead. */
  function SocketAddress(peerID: string): (r: Option<string>)
    ensures r.Some? <==> ValidateAddress(peerID)
    ensures r.Some? ==> r.value == "http://" + Replace(peerID, ' ', ":")
  {
    if ValidateAddress(peerID) then
      JoinOfSplit(peerID, ' ', ":");
      Some("http://" + Join(Split(peerID, ' '), ":"))
    else None
  }

  /** Replacing the only space of "host port" by a colon. */
  lemma ColonForSpace(host: string, port: string)
    requires ' ' !in host && ' ' !in port
    ensures Replace(host + " " + port, ' ', ":") == host + ":" + port
  {
    var s := host + " " + port;
    var t := host + ":" + port;
    var r := Replace(s, ' ', ":");
    forall i | 0 <= i < |s|
      ensures r[i] == t[i]
    {
      if i < |host| {
        assert s[i] == host[i] && t[i] == host[i];
      } else if i > |host| {
        assert s[i] == port[i - |host| - 1] && t[i] == port[i - |host| - 1];
      }
    }
  }

  /** For a valid entry "host port" with a one-word port, the space becomes
      the colon before the port. */
  lemma SocketAddressOfEntry(host: string, port: string)
    requires ValidateAddress(host + " " + port)
    requires ' ' !in host && ' ' !in port
    ensures SocketAddress(host + " " + port) == Some("http://" + (host + ":" + port))
  {
    ColonForSpace(host, port);
    SocketOfValid(host + " " + port, host + ":" + port);
  }

  lemma SocketOfValid(entry: string, target: string)
    requires ValidateAddress(entry) && Replace(entry, ' ', ":") == target
    ensures SocketAddress(entry) == Some("http://" + target)
  {
  }
}
