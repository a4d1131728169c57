/** The training-data record shared by the scripts: `{text, labels}` in a JSON file's `data` array. */
module TrainingData {

  datatype Entry = Entry(text: string, labels: seq<string>)
}
