/** The configuration of one run, built once from the command line. */
module Settings {

  /**
   * The Config record: the file names, the clip and mute boundaries as the
   * user typed them, the encoder preset and quality, the resolved tool
   * paths and the two switches.
   */
  datatype Config = Config(
    inputFile: string,
    outputFile: string,
    preset: string,
    crf: int,
    muteStart: string,
    muteEnd: string,
    startTime: string,
    endTime: string,
    ffmpegBin: string,
    ffprobeBin: string,
    verbose: bool,
    extractMp3: bool)
}
