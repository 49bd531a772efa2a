/** The staging half: `run_full_pipeline` stores a temporary copy of the
    upload, runs both recognition models and returns the staged result
    without touching the index or the catalog tree. The models and the id
    are parameters. */
module Pipeline {
  import opened Text
  import opened Paths
  import opened Storage

  /** The bathroom types the classifier can produce. */
  const ClassNames: seq<string> := ["Modern", "Western"]

  /** The staged result handed to the confirmation screen. The model's
      confidence score is not part of the model. */
  datatype Staged = Staged(imgId: string, bathroomType: string, detectedObjects: seq<string>, tempPath: string)

  /** `get_class_names`: the fixed list of bathroom types, never empty. */
  function GetClassNames(): (names: seq<string>)
    ensures |names| > 0 && "Modern" in names && "Western" in names
  {
    ClassNames
  }

  /** `run_full_pipeline` with the minted id given: the upload is saved as
      `<id>.jpg` in the working directory, the classifier sees the upload and
      the detector sees the file read back from the temporary path. */
  function RunFullPipeline<Img>(disk: Disk<Img>, id: string, image: Img,
                                classify: Img -> string, detect: Img -> seq<string>): (r: (Staged, Disk<Img>))
    ensures r.0.imgId == id && r.0.tempPath == id + ".jpg"
    ensures r.0.bathroomType == classify(image)
    ensures r.0.detectedObjects == detect(image)
    ensures r.0.tempPath in r.1 && r.1[r.0.tempPath] == image
    ensures forall f :: f != r.0.tempPath ==> (f in r.1 <==> f in disk) && (f in disk ==> r.1[f] == disk[f])
  {
    var tempPath := id + ".jpg";
    var staged := disk[tempPath := image];
    (Staged(id, classify(image), detect(staged[tempPath]), tempPath), staged)
  }

  /** Staging leaves the catalog tree alone: the temporary copy sits outside
      the save root, so every catalog file is as before. */
  lemma StagingKeepsCatalog<Img>(disk: Disk<Img>, id: string, image: Img,
                                 classify: Img -> string, detect: Img -> seq<string>)
    requires IsBareId(id)
    ensures var d := RunFullPipeline(disk, id, image, classify, detect).1;
            forall f :: UnderRoot(f) ==> (f in d <==> f in disk) && (f in d ==> d[f] == disk[f])
  {
    FileNameIsBare(id);
    NoSepNotUnderRoot(id + ".jpg");
  }
}
