/**
  The entry point: the early exits for a missing file and an empty key, the choice
  between the two streamers by mode, and the run of the chosen streamer with the
  XOR combiner. Argument parsing and opening the file are not modelled: the file's
  existence and the parsed arguments are parameters.
 */
module Command {
  import opened Bytes
  import opened Cipher
  import opened PositionalFile
  import opened Streamer

  /** What one invocation does; the first two print a message and exit normally, the last panics. */
  datatype Action = ReportMissingFile | ReportEmptyKey | RunEncrypt | RunDecrypt | PanicUnknownMode

  /**
    The checks `main` makes, in its order: the file must exist, then the key must be
    non-empty, and only then is the mode looked at. "encrypt" and "e" select
    encryption, "decrypt" and "d" decryption; anything else is fatal.
   */
  function SelectAction(fileExists: bool, key: seq<Byte>, mode: string): (a: Action)
    ensures a == ReportMissingFile <==> !fileExists
    ensures a == ReportEmptyKey <==> fileExists && |key| == 0
    ensures a == RunEncrypt <==> fileExists && |key| > 0 && (mode == "encrypt" || mode == "e")
    ensures a == RunDecrypt <==> fileExists && |key| > 0 && (mode == "decrypt" || mode == "d")
    ensures a == PanicUnknownMode <==>
      fileExists && |key| > 0 && mode !in {"encrypt", "e", "decrypt", "d"}
  {
    if !fileExists then ReportMissingFile
    else if |key| == 0 then ReportEmptyKey
    else if mode == "encrypt" || mode == "e" then RunEncrypt
    else if mode == "decrypt" || mode == "d" then RunDecrypt
    else PanicUnknownMode
  }

  /** A streamer is only ever started with a non-empty key. */
  lemma StreamersGetKey(fileExists: bool, key: seq<Byte>, mode: string)
    requires SelectAction(fileExists, key, mode) in {RunEncrypt, RunDecrypt}
    ensures fileExists && |key| > 0
  {
  }

  /** The short and the long spelling of a mode behave the same. */
  lemma ModeSpellings(fileExists: bool, key: seq<Byte>)
    ensures SelectAction(fileExists, key, "e") == SelectAction(fileExists, key, "encrypt")
    ensures SelectAction(fileExists, key, "d") == SelectAction(fileExists, key, "decrypt")
  {
  }

  /**
    One invocation: selects the action and, for the two modes, runs the streamer with
    XOR and the 512-byte buffer; encryption takes its prefix from the byte source
    `draw`. `completed` is false when the program exits early, panics on the mode, or
    aborts a decryption of a file shorter than the prefix; the file is then unchanged.
   */
  method Run(file: File, fileExists: bool, key: seq<Byte>, mode: string, draw: nat -> Byte)
    returns (action: Action, completed: bool)
    modifies file
    ensures action == SelectAction(fileExists, key, mode)
    ensures action == RunEncrypt ==>
      completed && file.contents == Encrypted(Xor, seq(PREFIX_SIZE, i requires 0 <= i => draw(i)), old(file.contents), key)
    ensures action == RunDecrypt ==>
      Decrypted(Xor, old(file.contents), key) == if completed then Some(file.contents) else None
    ensures action !in {RunEncrypt, RunDecrypt} ==> !completed
    ensures !completed ==> file.contents == old(file.contents)
  {
    action := SelectAction(fileExists, key, mode);
    completed := false;
    match action
    case RunEncrypt =>
      var prefix := GeneratePrefix(PREFIX_SIZE, draw);
      assert prefix == seq(PREFIX_SIZE, i requires 0 <= i => draw(i));
      EncryptFile(file, key, Xor, prefix, BUFFER_SIZE);
      completed := true;
    case RunDecrypt =>
      completed := DecryptFile(file, key, Xor, BUFFER_SIZE);
    case _ =>
  }
}
