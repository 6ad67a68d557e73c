/**
 * The part of webpack's compilation object that the two output plugins
 * touch: the emitted assets, keyed by output name, and the chunks with
 * their names, content hashes and files. Also the observable events the
 * plugins produce, in order.
 */
module Webpack {

  /** The source of an emitted asset; the plugins never look inside it. */
  datatype Asset = Asset(source: string)

  /** A chunk: its name, its content hash and the names of its files. */
  datatype Chunk = Chunk(name: string, hash: string, files: seq<string>)

  /**
   * What a plugin hook does that can be observed: an `scp` attempt of a
   * local file to a target, the error message printed after a failed one,
   * `client.close()`, and the call of webpack's continuation callback.
   */
  datatype Event = Scp(local: string, target: string) | Failed(local: string) | Close | Callback

  /** `compilation`: its `assets` object is changed in place by plugins. */
  class Compilation {
    var assets: map<string, Asset>
    var chunks: seq<Chunk>

    constructor (assets: map<string, Asset>, chunks: seq<Chunk>)
      ensures this.assets == assets && this.chunks == chunks
    {
      this.assets := assets;
      this.chunks := chunks;
    }
  }
}
