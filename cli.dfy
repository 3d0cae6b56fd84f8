/** The command line of git-open (main.go): it takes at most one argument. */
module Cli {
  import opened Wrappers
  import opened Strs

  const ErrorHead := "recieved "
  const ErrorTail := " args, accepts 1"

  /** processArgs: os.Args holds the program name and then the arguments;
      no argument is "", one argument is itself, and any other count is an
      error that reports how many arguments there were. The spelling of the
      message is the program's own. */
  function ProcessArgs(args: seq<string>): (r: Result<string, string>)
    ensures r.Ok? <==> |args| == 1 || |args| == 2
    ensures |args| == 1 ==> r == Ok([])
    ensures |args| == 2 ==> r == Ok(args[1])
    ensures r.Err? ==>
      HasPrefix(r.error, ErrorHead) && HasSuffix(r.error, ErrorTail)
      && |r.error| > |ErrorHead| + |ErrorTail|
      && var count := r.error[|ErrorHead|..|r.error| - |ErrorTail|];
         IsCanonicalNumeral(count) && IntValue(count) == |args| - 1
  {
    if |args| == 1 then Ok([])
    else if |args| == 2 then Ok(args[1])
    else
      var count := IntToDecimal(|args| - 1);
      IntToDecimalRoundTrip(|args| - 1);
      var m := ErrorHead + count + ErrorTail;
      assert m[|ErrorHead|..|m| - |ErrorTail|] == count;
      Err(m)
  }

  /** The command line table test: no argument, one argument, and two
      arguments, which is refused with the count 2; and an empty argument
      vector, which the count reports as -1. */
  lemma ProcessArgsExamples()
    ensures ProcessArgs(["git-open"]) == Ok("")
    ensures ProcessArgs(["git-open", "LICENSE"]) == Ok("LICENSE")
    ensures ProcessArgs(["git-open", "LICENSE", "README.md"]) == Err("recieved 2 args, accepts 1")
    ensures ProcessArgs([]) == Err("recieved -1 args, accepts 1")
  {
    assert NatToDecimal(1) == "1";
    assert IntToDecimal(-1) == "-1";
    assert ErrorHead + "-1" + ErrorTail == "recieved -1 args, accepts 1";
    assert IntToDecimal(2) == "2";
    assert ErrorHead + "2" + ErrorTail == "recieved 2 args, accepts 1";
  }
}
