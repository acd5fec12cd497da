/**
 The janitor's configuration. At start-up the source reads it from a JSON file;
 here it is a value handed to the janitor, and `Defaults` is the fallback the
 source uses when that file is missing.
 */
module Config {

  datatype Config = Config(
    /** Category folder name and its extensions, in the order the table lists them. */
    extensionMap: seq<(string, seq<string>)>,
    /** Category folder name and its retention period in whole days, in order. A
        configuration file may hold any integer here. */
    retentionPolicies: seq<(string, int)>,
    /** Where a file whose extension no category claims goes. */
    othersFolder: string,
    /** The janitor's own log file in the root directory. */
    logFilename: string)

  /** The built-in configuration used when no configuration file exists. */
  const Defaults: Config :=
    Config(
      [("Documents", [".pdf", ".docx", ".doc", ".txt"]),
       ("Images", [".jpg", ".png", ".jpeg"]),
       ("Others", [])],
      [],
      "Others",
      "triage.log")

  /** Names the organizer never touches: its log and the tool's own source files. */
  function IgnoredFiles(c: Config): set<string>
  {
    {c.logFilename, "main.py", "core.py", "config.py"}
  }
}
