/** AT commands to the RYLR998 LoRa module, as both nodes' `send_command`
    writes them on the UART, and the configuration `initialize_lora` sends. */
module AtCommand {
  import opened Wrappers
  import opened Text

  predicate IsAscii(s: string) {
    forall k :: 0 <= k < |s| ==> s[k] as int < 0x80
  }

  /** The UTF-8 encoding of one character: one byte for ASCII, up to four
      otherwise. */
  function Utf8Char(c: char): (b: seq<Byte>)
    ensures 1 <= |b| <= 4
    ensures |b| == 1 <==> c as int < 0x80
    ensures |b| == 1 ==> b[0] == c as int
  {
    var v := c as int;
    if v < 0x80 then [v]
    else if v < 0x800 then [0xC0 + v / 0x40, 0x80 + v % 0x40]
    else if v < 0x1_0000 then [0xE0 + v / 0x1000, 0x80 + (v / 0x40) % 0x40, 0x80 + v % 0x40]
    else [0xF0 + v / 0x4_0000, 0x80 + (v / 0x1000) % 0x40, 0x80 + (v / 0x40) % 0x40, 0x80 + v % 0x40]
  }

  /** `s.encode(...)` on MicroPython, which ignores the encoding argument and
      returns the string's UTF-8 bytes: as many bytes as characters exactly
      when the string is ASCII, and then each byte is its character's code. */
  function Utf8Encode(s: string): (b: seq<Byte>)
    ensures |b| >= |s|
    ensures |b| == |s| <==> IsAscii(s)
    ensures IsAscii(s) ==> forall k :: 0 <= k < |s| ==> b[k] == s[k] as int
    decreases |s|
  {
    if |s| == 0 then []
    else
      var rest := Utf8Encode(s[1..]);
      assert IsAscii(s) <==> s[0] as int < 0x80 && IsAscii(s[1..]) by {
        assert forall k :: 1 <= k < |s| ==> s[k] == s[1..][k - 1];
      }
      Utf8Char(s[0]) + rest
  }

  /** Encoding distributes over concatenation. */
  lemma {:induction false} Utf8Concat(a: string, b: string)
    ensures Utf8Encode(a + b) == Utf8Encode(a) + Utf8Encode(b)
    decreases |a|
  {
    if |a| > 0 {
      assert (a + b)[0] == a[0] && (a + b)[1..] == a[1..] + b;
      Utf8Concat(a[1..], b);
      ConcatAssoc(Utf8Char(a[0]), Utf8Encode(a[1..]), Utf8Encode(b));
    } else {
      assert a + b == b;
    }
  }

  lemma AsciiConcat(a: string, b: string)
    requires IsAscii(a) && IsAscii(b)
    ensures IsAscii(a + b)
  {
    assert forall k :: |a| <= k < |a + b| ==> (a + b)[k] == b[k - |a|];
  }

  /** `send_command`: the command's bytes (`encode` returns UTF-8 on
      MicroPython, whatever encoding is named) with CR LF appended. */
  function CommandBytes(command: string): (r: seq<Byte>)
    ensures |r| == |Utf8Encode(command)| + 2 && r[|r| - 2..] == [0x0D, 0x0A]
    ensures IsAscii(command) ==> |r| == |command| + 2
  {
    Utf8Encode(command) + [0x0D, 0x0A]
  }

  /** The characters of ASCII bytes. */
  function AsciiDecode(b: seq<Byte>): (s: string)
    requires forall k :: 0 <= k < |b| ==> b[k] < 0x80
    ensures |s| == |b| && forall k :: 0 <= k < |b| ==> s[k] as int == b[k]
  {
    seq(|b|, k requires 0 <= k < |b| => b[k] as char)
  }

  /** How the module reads a command line: ASCII bytes ending in CR LF,
      the terminator removed. */
  function ReadLine(b: seq<Byte>): (r: Option<string>)
    ensures r.Some? ==> |r.value| + 2 == |b|
  {
    if |b| >= 2 && b[|b| - 2..] == [0x0D, 0x0A] && forall k :: 0 <= k < |b| - 2 ==> b[k] < 0x80 then
      Some(AsciiDecode(b[..|b| - 2]))
    else None
  }

  /** The framing is undone by reading the line: every ASCII command
      reaches the module unchanged. */
  lemma ReadCommandBytes(command: string)
    requires IsAscii(command)
    ensures ReadLine(CommandBytes(command)) == Some(command)
  {
    var e := Utf8Encode(command);
    var b := e + [0x0D, 0x0A];
    assert b[..|b| - 2] == e;
    assert b[|b| - 2..] == [0x0D, 0x0A];
    assert forall k :: 0 <= k < |b| - 2 ==> b[k] < 0x80 by {
      forall k | 0 <= k < |b| - 2 ensures b[k] < 0x80 {
        assert b[k] == e[k] == command[k] as int;
      }
    }
    var s := AsciiDecode(e);
    assert forall k :: 0 <= k < |s| ==> s[k] == command[k] by {
      forall k | 0 <= k < |s| ensures s[k] == command[k] {
        assert s[k] as int == e[k] == command[k] as int;
      }
    }
    assert s == command;
    assert ReadLine(b) == Some(AsciiDecode(b[..|b| - 2]));
  }

  const AddressCommand: string := "AT+ADDRESS="

  /** `initialize_lora` on a node with the given LoRa address: the commands
      in the order they are sent. Network identifier and band are the same
      on both nodes. */
  function InitCommands(address: nat): (cmds: seq<string>)
    ensures |cmds| == 4 && cmds[0] == "AT"
    ensures StartsWith(cmds[1], AddressCommand)
      && ParseNat(cmds[1][|AddressCommand|..]) == Some(address)
    ensures cmds[2] == "AT+NETWORKID=5" && cmds[3] == "AT+BAND=915000000"
  {
    ParseDecimal(address);
    var c := AddressCommand + Decimal(address);
    assert c[|AddressCommand|..] == Decimal(address);
    ["AT", c, "AT+NETWORKID=5", "AT+BAND=915000000"]
  }
}
