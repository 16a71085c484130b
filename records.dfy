/**
  * The IPv6 record text built twice in `main` (main.go:133-136 and main.go:167-170):
  * one `"<addr> <hostname> <short>\n"` line per address, in order.
  */
module Records {
  import opened Strings

  /** One hosts-file record, without its line terminator. */
  function Record(addr: string, hostname: string, short: string): string
  {
    addr + " " + hostname + " " + short
  }

  /** The record text for a list of addresses; empty exactly when the list is. */
  function RecordText(addrs: seq<string>, hostname: string, short: string): (text: string)
    ensures text == "" <==> addrs == []
  {
    if addrs == [] then ""
    else Record(addrs[0], hostname, short) + "\n" + RecordText(addrs[1..], hostname, short)
  }

  /** The text of a concatenation is the concatenation of the texts. */
  lemma {:induction false} RecordTextConcat(a: seq<string>, b: seq<string>, hostname: string, short: string)
    ensures RecordText(a + b, hostname, short) == RecordText(a, hostname, short) + RecordText(b, hostname, short)
  {
    if a != [] {
      assert (a + b)[1..] == a[1..] + b;
      RecordTextConcat(a[1..], b, hostname, short);
    } else {
      assert a + b == b;
    }
  }

  /**
    * When no input contains a newline, splitting the text at newlines gives exactly
    * one record per address, in order, followed by the empty field after the last
    * terminator.
    */
  lemma {:induction false} RecordTextLines(addrs: seq<string>, hostname: string, short: string)
    requires forall a | a in addrs :: '\n' !in a
    requires '\n' !in hostname && '\n' !in short
    ensures var lines := Split(RecordText(addrs, hostname, short), '\n');
      && |lines| == |addrs| + 1
      && (forall i | 0 <= i < |addrs| :: lines[i] == Record(addrs[i], hostname, short))
      && lines[|addrs|] == ""
  {
    if addrs == [] {
      SplitPlain("", '\n');
    } else {
      var line := Record(addrs[0], hostname, short);
      assert addrs[0] in addrs;
      assert '\n' !in line;
      RecordTextLines(addrs[1..], hostname, short);
      SplitField(line, '\n', RecordText(addrs[1..], hostname, short));
      var lines := Split(RecordText(addrs, hostname, short), '\n');
      forall i | 0 <= i < |addrs| ensures lines[i] == Record(addrs[i], hostname, short) {
        if i > 0 {
          assert addrs[1..][i - 1] == addrs[i];
        }
      }
    }
  }

  /** The loop as written: append one formatted line per address. */
  method BuildRecordText(addrs: seq<string>, hostname: string, short: string) returns (text: string)
    ensures text == RecordText(addrs, hostname, short)
  {
    text := "";
    for i := 0 to |addrs|
      invariant text == RecordText(addrs[..i], hostname, short)
    {
      RecordTextConcat(addrs[..i], [addrs[i]], hostname, short);
      assert addrs[..i + 1] == addrs[..i] + [addrs[i]];
      text := text + Record(addrs[i], hostname, short) + "\n";
    }
    assert addrs[..|addrs|] == addrs;
  }
}
