/** What bin/generate.js asks of the file system and of the libraries it calls,
    as given answers. Each field stands for one call (or one chain of calls)
    and says what it returns or whether it throws. */
module Hosts {
  import opened Wrappers
  import opened Documents

  datatype Host = Host(
    /** `glob.sync(pattern, { dot: true })`: the matched files, in order. */
    glob: string -> seq<string>,
    /** `yamljs.load(fs.readFileSync(file, 'utf8'))`; None when either throws. */
    load: string -> Option<Value>,
    /** `mkdirp.sync(outputPath)` and `fs.writeFileSync` of this output file
        both succeed. */
    writable: string -> bool,
    /** The asynchronous `mkdirp(outputPath, cb)` reports no error. */
    outputDirOk: bool,
    /** `copydir.sync` of the bundled site into the output directory succeeds. */
    templateOk: bool,
    /** `fs.copyFileSync` from the first path to the file of the second name
        in the output directory succeeds. */
    copyable: (string, string) -> bool
  )
}
